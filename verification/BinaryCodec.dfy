/** The binary form of a command: size, type and contents of every argument, in network order. */
module BinaryCodec {
  import opened Options
  import opened Bytes
  import opened Arguments
  import opened TextCodec

  const MAX_SIZE: nat := 65535

  /** `htons` */
  function Be16(v: nat): (s: seq<U8>)
    requires v <= MAX_SIZE
    ensures |s| == 2
  {
    [v / 256, v % 256]
  }

  /** `htonl`; negative numbers are in two's complement. */
  function Be32(v: I32): (s: seq<U8>)
    ensures |s| == 4
  {
    var u := if v < 0 then v + 0x1_0000_0000 else v;
    Be16(u / 0x1_0000) + Be16(u % 0x1_0000)
  }

  function Word(b: seq<U8>, i: nat): nat
    requires i + 2 <= |b|
  {
    (256 * b[i] as nat) + b[i + 1]
  }

  /** What an argument contributes after its header; strings keep their NUL. */
  function Body(a: Arg): seq<U8> {
    match a
    case Number(v) => Be32(v)
    case Text(s) => s + [NUL8]
    case Data(d) => d
  }

  function TypeOf(k: Kind): nat {
    match k
    case NumberKind => 1
    case TextKind => 2
    case DataKind => 3
  }

  function Encoded(a: Arg): (s: seq<U8>)
    requires |Body(a)| <= MAX_SIZE
    ensures |s| == 4 + |Body(a)|
  {
    Be16(|Body(a)|) + Be16(TypeOf(KindOf(a))) + Body(a)
  }

  /** The bytes that `_flush` adds to the size of a command: four more for each argument than a
      header and its contents take. */
  function Room(args: seq<Arg>): nat {
    if args == [] then 0 else 4 + |Body(args[0])| + 4 + Room(args[1..])
  }

  function EncodedAll(args: seq<Arg>): (s: seq<U8>)
    requires Room(args) <= MAX_SIZE
    ensures |s| + 4 * |args| == Room(args)
  {
    if args == [] then [] else Encoded(args[0]) + EncodedAll(args[1..])
  }

  // ---------------------------------------------------------------- reading

  /** One `_unshift` of a binary command: beyond the buffer, not of that type and so nothing
      done, or an argument and the position behind it. */
  datatype Unshifted = Overrun | Refused | Taken(arg: Arg, next: nat)

  function UnshiftBinary(b: seq<U8>, i: nat, k: Kind): Unshifted {
    if i + 4 > |b| then Overrun
    else
      var s, t, j := Word(b, i), Word(b, i + 2), i + 4;
      if t != TypeOf(k) || (k.NumberKind? && s != 4) || (k.TextKind? && s < 1) then Refused
      else if j + s > |b| then Overrun
      else
        match k
        case NumberKind => Taken(Number(ToI32(0x1_0000 * Word(b, j) + Word(b, j + 2))), j + 4)
        case TextKind =>
          if b[j + s - 1] != NUL8 then Refused
          else assert Terminated(b, j); Taken(Text(CString(b, j)), j + s)
        case DataKind => Taken(Data(b[j..j + s]), j + s)
  }

  /** A whole unpacking: what each variable was set to, if at all, and the last position. */
  datatype Unpacking = Wild | Unpacking(got: seq<Option<Arg>>, pos: nat)

  function UnpackBinary(b: seq<U8>, i: nat, kinds: seq<Kind>): Unpacking
    decreases |kinds|
  {
    if kinds == [] then Unpacking([], i)
    else
      match UnshiftBinary(b, i, kinds[0])
      case Overrun => Wild
      case Refused => Before(None, UnpackBinary(b, i, kinds[1..]))
      case Taken(a, n) => Before(Some(a), UnpackBinary(b, n, kinds[1..]))
  }

  function Before(a: Option<Arg>, u: Unpacking): Unpacking {
    match u
    case Wild => Wild
    case Unpacking(got, pos) => Unpacking([a] + got, pos)
  }

  /** `vunpack` gives up, with false, when the position has reached the size. */
  datatype Verdict = Lost | Verdict(ok: bool, got: seq<Option<Arg>>)

  function Vunpack(b: seq<U8>, size: nat, i: nat, kinds: seq<Kind>): Verdict
    decreases |kinds|
  {
    if kinds == [] then Verdict(true, [])
    else if i >= size then Verdict(false, [])
    else
      match UnshiftBinary(b, i, kinds[0])
      case Overrun => Lost
      case Refused => Ahead(None, Vunpack(b, size, i, kinds[1..]))
      case Taken(a, n) => Ahead(Some(a), Vunpack(b, size, n, kinds[1..]))
  }

  function Ahead(a: Option<Arg>, v: Verdict): Verdict {
    match v
    case Lost => Lost
    case Verdict(ok, got) => Verdict(ok, [a] + got)
  }

  /** `vunpack` goes on while the position is below the size, and fails where it no longer is. */
  lemma {:induction false} VunpackMeans(b: seq<U8>, size: nat, i: nat, kinds: seq<Kind>)
    requires Vunpack(b, size, i, kinds).Verdict?
    ensures var v := Vunpack(b, size, i, kinds);
            && |v.got| <= |kinds| && v.ok == (|v.got| == |kinds|)
            && UnpackBinary(b, i, kinds[..|v.got|]).Unpacking?
            && UnpackBinary(b, i, kinds[..|v.got|]).got == v.got
            && (!v.ok ==> UnpackBinary(b, i, kinds[..|v.got|]).pos >= size)
            && forall n | 0 <= n < |v.got| ::
                 UnpackBinary(b, i, kinds[..n]).Unpacking? && UnpackBinary(b, i, kinds[..n]).pos < size
    decreases |kinds|
  {
    hide UnshiftBinary;
    if kinds != [] && i < size {
      var u, rest := UnshiftBinary(b, i, kinds[0]), kinds[1..];
      var j := if u.Taken? then u.next else i;
      VunpackMeans(b, size, j, rest);
      forall n | 0 < n <= |kinds|
        ensures kinds[..n][0] == kinds[0] && kinds[..n][1..] == rest[..n - 1]
      {
      }
    }
  }

  /** The two ways of unpacking agree as long as something is left. */
  lemma {:induction false} VunpackAgrees(b: seq<U8>, size: nat, i: nat, kinds: seq<Kind>)
    requires UnpackBinary(b, i, kinds).Unpacking? && UnpackBinary(b, i, kinds).pos < size
    ensures i <= UnpackBinary(b, i, kinds).pos
    ensures Vunpack(b, size, i, kinds) == Verdict(true, UnpackBinary(b, i, kinds).got)
    decreases |kinds|
  {
    if kinds != [] {
      var u := UnshiftBinary(b, i, kinds[0]);
      VunpackAgrees(b, size, if u.Taken? then u.next else i, kinds[1..]);
    }
  }

  // ---------------------------------------------------------------- what reading means

  /** What asking for `kinds` should give: an argument asked for as something else stays where it is. */
  function Asked(args: seq<Arg>, kinds: seq<Kind>): seq<Option<Arg>>
    decreases |kinds|
  {
    if kinds == [] then []
    else if args != [] && KindOf(args[0]) == kinds[0] then [Some(args[0])] + Asked(args[1..], kinds[1..])
    else [None] + Asked(args, kinds[1..])
  }

  /** How many bytes that takes. */
  function Passed(args: seq<Arg>, kinds: seq<Kind>): nat
    decreases |kinds|
  {
    if kinds == [] then 0
    else if args != [] && KindOf(args[0]) == kinds[0] then 4 + |Body(args[0])| + Passed(args[1..], kinds[1..])
    else Passed(args, kinds[1..])
  }

  /** Nothing is asked for when all arguments have been taken. */
  predicate Outlasts(args: seq<Arg>, kinds: seq<Kind>)
    decreases |kinds|
  {
    kinds == [] || (args != [] && Outlasts(if KindOf(args[0]) == kinds[0] then args[1..] else args, kinds[1..]))
  }

  /** `s` begins with a header of a type that nobody can ask for. */
  predicate Unaskable(s: seq<U8>) {
    |s| >= 4 && forall k: Kind :: Word(s, 2) != TypeOf(k)
  }

  ghost predicate At(b: seq<U8>, i: nat, s: seq<U8>) {
    i + |s| <= |b| && forall k | 0 <= k < |s| :: b[i + k] == s[k]
  }

  lemma AtSplit(b: seq<U8>, i: nat, s: seq<U8>, t: seq<U8>)
    requires At(b, i, s + t)
    ensures At(b, i, s) && At(b, i + |s|, t)
  {
    assert forall k | 0 <= k < |s| :: (s + t)[k] == s[k];
    assert forall k | 0 <= k < |t| :: (s + t)[|s| + k] == t[k];
  }

  lemma HeaderAt(b: seq<U8>, i: nat, a: Arg)
    requires |Body(a)| <= MAX_SIZE && At(b, i, Encoded(a))
    ensures i + 4 + |Body(a)| <= |b| && At(b, i + 4, Body(a))
    ensures Word(b, i) == |Body(a)| && Word(b, i + 2) == TypeOf(KindOf(a))
  {
    var s, t := Be16(|Body(a)|), Be16(TypeOf(KindOf(a)));
    AtSplit(b, i, s + t, Body(a));
    AtSplit(b, i, s, t);
    assert b[i + 0] == s[0] && b[i + 1] == s[1] && b[i + 2 + 0] == t[0] && b[i + 2 + 1] == t[1];
  }

  lemma NumberAt(b: seq<U8>, i: nat, v: I32)
    requires At(b, i, Be32(v))
    ensures i + 4 <= |b| && ToI32(0x1_0000 * Word(b, i) + Word(b, i + 2)) == v
  {
    var s := Be32(v);
    assert b[i + 0] == s[0] && b[i + 1] == s[1] && b[i + 2] == s[2] && b[i + 3] == s[3];
  }

  /** One argument: taken unchanged if it is asked for as what it is, left alone otherwise. */
  lemma UnshiftEncoded(b: seq<U8>, i: nat, a: Arg, k: Kind)
    requires IsArg(a) && |Body(a)| <= MAX_SIZE && At(b, i, Encoded(a))
    ensures UnshiftBinary(b, i, k) == if KindOf(a) == k then Taken(a, i + |Encoded(a)|) else Refused
  {
    HeaderAt(b, i, a);
    hide Be32, Encoded;
    var j := i + 4;
    match a
    case Number(v) =>
      NumberAt(b, j, v);
    case Text(s) =>
      AtSplit(b, j, s, [NUL8]);
      assert b[j + |s| + 0] == [NUL8][0];
      if k.TextKind? {
        assert forall n | j <= n < j + |s| :: b[n] == s[n - j];
        StrEndIs(b, j, j + |s|);
        assert CString(b, j) == s;
      }
    case Data(d) =>
      if k.DataKind? {
        assert b[j..j + |d|] == d;
      }
  }

  lemma UnaskableAt(b: seq<U8>, i: nat, s: seq<U8>, k: Kind)
    requires Unaskable(s) && At(b, i, s)
    ensures UnshiftBinary(b, i, k) == Refused
  {
    assert Word(s, 2) == Word(b, i + 2);
  }

  lemma FirstAt(b: seq<U8>, i: nat, args: seq<Arg>, after: seq<U8>)
    requires AreArgs(args) && Room(args) <= MAX_SIZE && args != [] && At(b, i, EncodedAll(args) + after)
    ensures IsArg(args[0]) && AreArgs(args[1..]) && At(b, i, Encoded(args[0]))
    ensures At(b, i + |Encoded(args[0])|, EncodedAll(args[1..]) + after)
  {
    hide Encoded, At;
    Assoc(Encoded(args[0]), EncodedAll(args[1..]), after);
    AtSplit(b, i, Encoded(args[0]), EncodedAll(args[1..]) + after);
  }

  /** Unpacking, whatever is asked for, gives what it should and stops behind what it took. It
      matters what follows the arguments only if more is asked for than there is. */
  lemma {:induction false} UnpackEncoded(b: seq<U8>, i: nat, args: seq<Arg>, kinds: seq<Kind>, after: seq<U8>)
    requires AreArgs(args) && Room(args) <= MAX_SIZE && At(b, i, EncodedAll(args) + after)
    requires Outlasts(args, kinds) || Unaskable(after)
    ensures UnpackBinary(b, i, kinds) == Unpacking(Asked(args, kinds), i + Passed(args, kinds))
    decreases |kinds|
  {
    hide Encoded, UnshiftBinary, At, Unaskable, AreArgs;
    if kinds == [] {
      return;
    }
    if args == [] {
      assert EncodedAll(args) + after == after;
      UnaskableAt(b, i, after, kinds[0]);
      UnpackEncoded(b, i, args, kinds[1..], after);
      return;
    }
    FirstAt(b, i, args, after);
    UnshiftEncoded(b, i, args[0], kinds[0]);
    if KindOf(args[0]) == kinds[0] {
      UnpackEncoded(b, i + 4 + |Body(args[0])|, args[1..], kinds[1..], after);
    } else {
      UnpackEncoded(b, i, args, kinds[1..], after);
    }
  }

  function Somes(args: seq<Arg>): seq<Option<Arg>> {
    seq(|args|, k requires 0 <= k < |args| => Some(args[k]))
  }

  lemma {:induction false} AskedAll(args: seq<Arg>)
    ensures Outlasts(args, Kinds(args)) && Asked(args, Kinds(args)) == Somes(args)
    ensures Room(args) <= MAX_SIZE ==> Passed(args, Kinds(args)) == |EncodedAll(args)|
    decreases |args|
  {
    if args != [] {
      AskedAll(args[1..]);
      assert Somes(args) == [Some(args[0])] + Somes(args[1..]);
    }
  }

  /** The binary round trip: every list of arguments comes back, whatever the slack bytes are. */
  lemma BinaryRoundTrip(args: seq<Arg>, slack: seq<U8>)
    requires AreArgs(args) && Room(args) <= MAX_SIZE
    ensures UnpackBinary(EncodedAll(args) + slack, 0, Kinds(args)) == Unpacking(Somes(args), |EncodedAll(args)|)
  {
    AskedAll(args);
    UnpackEncoded(EncodedAll(args) + slack, 0, args, Kinds(args), slack);
  }

  /** Nor does `vunpack` fail on what was packed at once, the slack being part of the size. */
  lemma VunpackRoundTrip(args: seq<Arg>, slack: seq<U8>)
    requires AreArgs(args) && Room(args) <= MAX_SIZE && |slack| == 4 * |args|
    ensures Vunpack(EncodedAll(args) + slack, |EncodedAll(args) + slack|, 0, Kinds(args))
         == Verdict(true, Somes(args))
  {
    BinaryRoundTrip(args, slack);
    if args != [] {
      VunpackAgrees(EncodedAll(args) + slack, |EncodedAll(args) + slack|, 0, Kinds(args));
    }
  }

  // ---------------------------------------------------------------- byte by byte

  /** How many bytes an argument has after its header. */
  function Width(a: Arg): nat {
    match a
    case Number(_) => 4
    case Text(t) => |t| + 1
    case Data(d) => |d|
  }

  /** The argument lies at `i`: its size, high byte first, its type, and its contents. */
  ghost predicate Laid(b: seq<U8>, i: nat, a: Arg) {
    && i + 4 + Width(a) <= |b|
    && 256 * (b[i] as int) + b[i + 1] == Width(a)
    && b[i + 2] == 0
    && match a
       case Number(v) =>
         && b[i + 3] == 1
         && 0x100_0000 * (b[i + 4] as int) + 0x1_0000 * (b[i + 5] as int) + 0x100 * (b[i + 6] as int) + b[i + 7]
            == (if v < 0 then v + 0x1_0000_0000 else v)
       case Text(t) => b[i + 3] == 2 && b[i + 4..i + 4 + |t|] == t && b[i + 4 + |t|] == 0
       case Data(d) => b[i + 3] == 3 && b[i + 4..i + 4 + |d|] == d
  }

  ghost predicate LaidAll(b: seq<U8>, i: nat, args: seq<Arg>)
    decreases |args|
  {
    args == [] || (Laid(b, i, args[0]) && LaidAll(b, i + 4 + Width(args[0]), args[1..]))
  }

  lemma EncodedLaid(b: seq<U8>, i: nat, a: Arg)
    requires |Body(a)| <= MAX_SIZE && At(b, i, Encoded(a))
    ensures Laid(b, i, a)
  {
    HeaderAt(b, i, a);
    match a
    case Number(v) =>
      var s := Be32(v);
      assert b[i + 4 + 0] == s[0] && b[i + 4 + 1] == s[1] && b[i + 4 + 2] == s[2] && b[i + 4 + 3] == s[3];
    case Text(t) =>
      AtSplit(b, i + 4, t, [NUL8]);
      assert b[i + 4 + |t| + 0] == [NUL8][0];
    case Data(d) =>
  }

  /** What is encoded is laid out in this way, argument by argument. */
  lemma {:induction false} EncodedAllLaid(b: seq<U8>, i: nat, args: seq<Arg>)
    requires Room(args) <= MAX_SIZE && At(b, i, EncodedAll(args))
    ensures LaidAll(b, i, args)
    decreases |args|
  {
    if args != [] {
      AtSplit(b, i, Encoded(args[0]), EncodedAll(args[1..]));
      EncodedLaid(b, i, args[0]);
      hide Encoded, Laid, At;
      EncodedAllLaid(b, i + 4 + Width(args[0]), args[1..]);
    }
  }

  /** An argument laid out in this way is taken, by who asks for one of its type. */
  lemma LaidTaken(b: seq<U8>, i: nat, a: Arg)
    requires IsArg(a) && Laid(b, i, a)
    ensures UnshiftBinary(b, i, KindOf(a)) == Taken(a, i + 4 + Width(a))
  {
    match a
    case Number(v) =>
    case Text(t) =>
      var j := i + 4;
      assert forall n | j <= n < j + |t| :: b[n] == b[j..j + |t|][n - j] == t[n - j];
      StrEndIs(b, j, j + |t|);
    case Data(d) =>
  }

  /** What each type is in a header. */
  ghost predicate Typed(b: seq<U8>, i: nat, k: Kind)
    requires i + 4 <= |b|
  {
    b[i + 2] == 0 && b[i + 3] == match k case NumberKind => 1 case TextKind => 2 case DataKind => 3
  }

  /** When an argument is refused: if it has another type, if a number does not have four bytes,
      or if a string has none or does not end with a NUL. */
  lemma RefusedMeans(b: seq<U8>, i: nat, k: Kind)
    requires i + 4 <= |b| && i + 4 + 256 * (b[i] as int) + b[i + 1] <= |b|
    ensures var size := 256 * (b[i] as int) + b[i + 1];
            UnshiftBinary(b, i, k) == Refused
            <==> || !Typed(b, i, k)
                 || (k.NumberKind? && size != 4)
                 || (k.TextKind? && (size == 0 || b[i + 4 + size - 1] != 0))
  {
  }

  /** And what is taken otherwise: a string up to its first NUL, anything else as it is laid out. */
  lemma TakenMeans(b: seq<U8>, i: nat, k: Kind)
    requires UnshiftBinary(b, i, k).Taken?
    ensures i + 4 <= |b| && Typed(b, i, k)
    ensures var u, size := UnshiftBinary(b, i, k), 256 * (b[i] as int) + b[i + 1];
            && KindOf(u.arg) == k && u.next == i + 4 + size <= |b|
            && if k.TextKind? then Width(u.arg) <= size && Holds(b, i + 4, u.arg.s) else Laid(b, i, u.arg)
  {
  }

  /** The string `s`, and nothing more, can be read at `i`. */
  ghost predicate Holds(b: seq<U8>, i: nat, s: seq<U8>) {
    i + |s| < |b| && b[i..i + |s|] == s && NoNul(s) && b[i + |s|] == 0
  }

  // ---------------------------------------------------------------- flushing more than once

  /** The arguments of one flush after the other. */
  function Joined(parts: seq<seq<Arg>>): seq<Arg> {
    if parts == [] then [] else parts[0] + Joined(parts[1..])
  }

  /** Each flush can be made. */
  ghost predicate Flushable(parts: seq<seq<Arg>>) {
    forall k | 0 <= k < |parts| :: AreArgs(parts[k]) && Room(parts[k]) <= MAX_SIZE
  }

  /** What new memory may hold in the bytes that each flush leaves unset. */
  ghost predicate Slacks(parts: seq<seq<Arg>>, slacks: seq<seq<U8>>) {
    |slacks| == |parts| && forall k | 0 <= k < |parts| :: |slacks[k]| == 4 * |parts[k]|
  }

  /** The contents after these flushes. */
  ghost function Flushed(parts: seq<seq<Arg>>, slacks: seq<seq<U8>>): seq<U8>
    requires Flushable(parts) && Slacks(parts, slacks)
    decreases |parts|
  {
    if parts == [] then []
    else
      assert forall k | 0 <= k < |parts[1..]| :: parts[1..][k] == parts[k + 1];
      EncodedAll(parts[0]) + slacks[0] + Flushed(parts[1..], slacks[1..])
  }

  lemma {:induction false} FlushedMore(parts: seq<seq<Arg>>, slacks: seq<seq<U8>>, args: seq<Arg>, slack: seq<U8>)
    requires Flushable(parts + [args]) && Flushable(parts) && Slacks(parts, slacks) && |slack| == 4 * |args|
    ensures Room(args) <= MAX_SIZE && Slacks(parts + [args], slacks + [slack])
    ensures Flushed(parts + [args], slacks + [slack]) == Flushed(parts, slacks) + EncodedAll(args) + slack
    decreases |parts|
  {
    assert (parts + [args])[|parts|] == args;
    var now, after := parts + [args], slacks + [slack];
    if parts == [] {
      assert now[1..] == [] && after[1..] == [] && Flushed(now[1..], after[1..]) == [];
      assert EncodedAll(args) + slack + [] == [] + EncodedAll(args) + slack;
    } else {
      assert now[1..] == parts[1..] + [args] && after[1..] == slacks[1..] + [slack];
      RestFlushable(now);
      RestFlushable(parts);
      FlushedMore(parts[1..], slacks[1..], args, slack);
      var first, rest := EncodedAll(parts[0]) + slacks[0], Flushed(parts[1..], slacks[1..]);
      Assoc(first, rest, EncodedAll(args));
      Assoc(first, rest + EncodedAll(args), slack);
    }
  }

  /** All arguments come back from these contents. */
  ghost predicate ReadsBack(parts: seq<seq<Arg>>, slacks: seq<seq<U8>>)
    requires Flushable(parts) && Slacks(parts, slacks)
  {
    var u := UnpackBinary(Flushed(parts, slacks), 0, Kinds(Joined(parts)));
    u.Unpacking? && u.got == Somes(Joined(parts))
  }

  /** No more than one flush had anything to add. */
  ghost predicate AtOnce(parts: seq<seq<Arg>>) {
    forall i, j | 0 <= i < j < |parts| :: parts[i] == [] || parts[j] == []
  }

  /** What a second flush adds is not reached if the slack of the first does not look like a header. */
  lemma SecondFlushIsLost(args: seq<Arg>, slack: seq<U8>, more: seq<U8>, kinds: seq<Kind>)
    requires AreArgs(args) && Room(args) <= MAX_SIZE && Unaskable(slack)
    ensures UnpackBinary(EncodedAll(args) + slack + more, 0, kinds).Unpacking?
    ensures UnpackBinary(EncodedAll(args) + slack + more, 0, kinds).got == Asked(args, kinds)
  {
    Assoc(EncodedAll(args), slack, more);
    assert Word(slack + more, 2) == Word(slack, 2);
    UnpackEncoded(EncodedAll(args) + slack + more, 0, args, kinds, slack + more);
  }

  lemma {:induction false} NothingJoined(parts: seq<seq<Arg>>)
    ensures Joined(parts) == [] <==> forall k | 0 <= k < |parts| :: parts[k] == []
  {
    if parts != [] {
      NothingJoined(parts[1..]);
      assert parts == [parts[0]] + parts[1..];
    }
  }

  /** Nothing is returned for what is asked beyond the arguments. */
  lemma {:induction false} AskedBeyond(args: seq<Arg>, more: seq<Arg>)
    requires more != []
    ensures Asked(args, Kinds(args + more)) != Somes(args + more)
    decreases |args|
  {
    if args == [] {
      assert args + more == more;
      assert Asked(args, Kinds(more))[0] == None && Somes(more)[0] == Some(more[0]);
    } else {
      assert (args + more)[0] == args[0] && (args + more)[1..] == args[1..] + more;
      AskedBeyond(args[1..], more);
      assert Somes(args + more)[1..] == Somes(args[1..] + more);
    }
  }

  lemma RestFlushable(parts: seq<seq<Arg>>)
    requires Flushable(parts) && parts != []
    ensures Flushable(parts[1..])
    ensures AtOnce(parts) <==> if parts[0] == [] then AtOnce(parts[1..]) else Joined(parts[1..]) == []
  {
    assert forall k | 0 <= k < |parts[1..]| :: parts[1..][k] == parts[k + 1];
    NothingJoined(parts[1..]);
    assert parts == [parts[0]] + parts[1..];
  }

  lemma {:induction false} AtOnceReadsBack(parts: seq<seq<Arg>>, slacks: seq<seq<U8>>)
    requires Flushable(parts) && Slacks(parts, slacks) && AtOnce(parts)
    ensures ReadsBack(parts, slacks)
    decreases |parts|
  {
    if parts != [] {
      RestFlushable(parts);
      var rest, others := Flushed(parts[1..], slacks[1..]), Joined(parts[1..]);
      if parts[0] == [] {
        AtOnceReadsBack(parts[1..], slacks[1..]);
        assert parts[0] + others == others && EncodedAll(parts[0]) + slacks[0] + rest == rest;
      } else {
        assert parts[0] + others == parts[0];
        Assoc(EncodedAll(parts[0]), slacks[0], rest);
        BinaryRoundTrip(parts[0], slacks[0] + rest);
      }
    }
  }

  /** Memory that happens to be zero loses what came after the first flush. */
  lemma {:induction false} ZeroesLose(parts: seq<seq<Arg>>) returns (slacks: seq<seq<U8>>)
    requires Flushable(parts) && !AtOnce(parts)
    ensures Slacks(parts, slacks) && !ReadsBack(parts, slacks)
    decreases |parts|
  {
    RestFlushable(parts);
    var others := Joined(parts[1..]);
    if parts[0] == [] {
      var later := ZeroesLose(parts[1..]);
      slacks := [[]] + later;
      assert slacks[1..] == later;
      var rest := Flushed(parts[1..], later);
      assert parts[0] + others == others && EncodedAll(parts[0]) + slacks[0] + rest == rest;
    } else {
      slacks := seq(|parts|, k requires 0 <= k < |parts| => seq(4 * |parts[k]|, _ => 0));
      AskedBeyond(parts[0], others);
      SecondFlushIsLost(parts[0], slacks[0], Flushed(parts[1..], slacks[1..]), Kinds(parts[0] + others));
    }
  }

  /** The exact limit of the binary form: whatever new memory holds, all arguments come back, if
      and only if they were flushed at once. */
  lemma FlushesReadBackIff(parts: seq<seq<Arg>>)
    requires Flushable(parts)
    ensures (forall slacks | Slacks(parts, slacks) :: ReadsBack(parts, slacks)) <==> AtOnce(parts)
  {
    if AtOnce(parts) {
      forall slacks | Slacks(parts, slacks)
        ensures ReadsBack(parts, slacks)
      {
        AtOnceReadsBack(parts, slacks);
      }
    } else {
      var slacks := ZeroesLose(parts);
    }
  }
}
