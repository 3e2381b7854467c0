/** A command: a buffer of arguments, filled by pushing and emptied by unshifting. */
module Commands {
  import opened Options
  import opened Bytes
  import opened Arguments
  import opened TextReader
  import opened TextCodec
  import opened BinaryCodec

  type U16 = v: int | 0 <= v < 0x1_0000

  const F2_CODE_START: U16 := 10000

  /** The binary form of the arguments can be added to `size` bytes without going over 16 bits. */
  ghost predicate Fits(size: nat, args: seq<Arg>) {
    size + Room(args) <= MAX_SIZE
  }

  /** So can their text form be added to the text `d`; a string must also be that short with its NUL. */
  ghost predicate Prints(d: seq<U8>, args: seq<Arg>) {
    && Printable(args) && (forall k | 0 <= k < |args| :: |Body(args[k])| <= MAX_SIZE)
    && |Print(d, args)| <= MAX_SIZE
  }

  lemma TextFits(a: Arg)
    requires !a.Data?
    ensures 1 + |Printed(a)| <= 4 + |Body(a)| + 4
  {
    if a.Number? { DecimalLength(a.v); }
  }

  lemma RoomOfFirst(args: seq<Arg>)
    requires args != []
    ensures Room(args) == 4 + |Body(args[0])| + 4 + Room(args[1..])
  {
  }

  lemma {:induction false} RoomGrows(args: seq<Arg>)
    ensures Room(args) >= 8 * |args|
  {
    if args != [] { RoomGrows(args[1..]); }
  }

  class Command {
    var size: U16
    var code: U16
    var data: array?<U8>
    /** The four bytes in front of `data`. */
    var head: seq<U8>
    /** The position; none if it has been read off the null pointer. */
    var offset: Option<int>
    var writer: seq<Arg>

    ghost predicate Valid()
      reads this
    {
      && |head| == 4
      && (if data == null then size == 0 else size as int <= data.Length)
    }

    function Written(): (s: seq<U8>)
      requires Valid()
      reads this, data
      ensures |s| == size as int
    {
      if data == null then [] else data[..size]
    }

    /** The contents are followed by a NUL. */
    ghost predicate Closed()
      requires Valid()
      reads this, data
    {
      data != null ==> size as int < data.Length && data[size] == NUL8
    }

    constructor (c: U16)
      ensures Valid() && Closed() && size == 0 && data == null && code == c && writer == [] && offset == Some(0)
    {
      size, code, data, head, offset, writer := 0, c, null, [0, 0, 0, 0], Some(0), [];
    }

    method Grow(s: nat)
      requires Valid() && s >= size as int
      modifies this`data
      ensures Valid() && Written() == old(Written()) && data != null
      ensures old(data) != null && s <= size as int ==> data == old(data)
      ensures old(data) == null || s > size as int ==> fresh(data) && data.Length == s + 1 && data[s] == NUL8
    {
      if data != null && s <= size as int {
        return;
      }
      var d := new U8[s + 1];
      if data != null {
        Copy(d, 0, data[..size]);
        assert d[..size] == d[..0] + data[..size];
      }
      d[s] := NUL8;
      data := d;
    }

    method Push(a: Arg)
      modifies this`writer
      ensures writer == old(writer) + [a]
    {
      writer := writer + [a];
    }

    /** A text command has its arguments printed after what is there, and a NUL at the end. */
    method FlushText()
      requires Valid() && Closed() && code < 10000
      requires Prints(Written(), writer)
      modifies this`size, this`data, this`writer, data
      ensures Valid() && Closed() && data != null && writer == [] && (data == old(data) || fresh(data))
      ensures Written() == Print(old(Written()), old(writer))
    {
      hide Print;
      ghost var before := Written();
      var s := Total(writer);
      s := size as int + s;
      Grow(s);
      var p: nat := size;
      assert data[..p] == before;
      p := PrintAll(data, p, writer);
      size := p;
      writer := [];
    }

    /** A binary command has its arguments encoded after what is there, and four unset bytes for
        each of them at the end. */
    method FlushBinary()
      requires Valid() && code >= 10000 && Fits(size, writer)
      modifies this`size, this`data, this`writer, data
      ensures Valid() && data != null && writer == [] && (data == old(data) || fresh(data))
      ensures old(Written()) + EncodedAll(old(writer)) <= Written()
      ensures |Written()| == |old(Written())| + |EncodedAll(old(writer))| + 4 * |old(writer)|
      ensures LaidAll(Written(), |old(Written())|, old(writer))
    {
      hide EncodedAll, LaidAll, Room, Laid;
      ghost var before := Written();
      var s := Total(writer);
      s := size as int + s;
      Grow(s);
      var p: nat := size;
      assert data[..p] == before;
      size := s;
      p := EncodeAll(data, p, writer);
      assert data[..p] <= data[..size];
      LaidAfter(Written(), before, writer);
      writer := [];
    }

    /** `_flush` */
    method Flush()
      requires Valid()
      requires if code < 10000 then Closed() && Prints(Written(), writer) else Fits(size, writer)
      modifies this`size, this`data, this`writer, data
      ensures Valid() && data != null && writer == [] && (data == old(data) || fresh(data))
      ensures code < 10000 ==> Closed() && Written() == Print(old(Written()), old(writer))
      ensures code >= 10000 ==> old(Written()) + EncodedAll(old(writer)) <= Written()
      ensures code >= 10000 ==>
                |Written()| == |old(Written())| + |EncodedAll(old(writer))| + 4 * |old(writer)|
      ensures code >= 10000 ==> LaidAll(Written(), |old(Written())|, old(writer))
    {
      if code < F2_CODE_START {
        FlushText();
      } else {
        FlushBinary();
      }
    }

    /** `<<` */
    method PushAndFlush(a: Arg)
      requires Valid() && writer == []
      requires if code < 10000 then Closed() && Prints(Written(), [a]) else Fits(size, [a])
      modifies this`size, this`data, this`writer, data
      ensures Valid() && data != null && writer == [] && (data == old(data) || fresh(data))
      ensures code < 10000 ==> Closed() && Written() == Print(old(Written()), [a])
      ensures code >= 10000 ==> old(Written()) + EncodedAll([a]) <= Written()
      ensures code >= 10000 ==> |Written()| == |old(Written())| + |EncodedAll([a])| + 4
      ensures code >= 10000 ==> LaidAll(Written(), |old(Written())|, [a])
    {
      hide Print, EncodedAll;
      Push(a);
      assert writer == [a];
      Flush();
    }

    method FlushPart(args: seq<Arg>) returns (ghost slack: seq<U8>)
      requires Valid() && code >= 10000 && writer == [] && Fits(size, args)
      modifies this`size, this`data, this`writer, data
      ensures Valid() && writer == [] && (data == old(data) || fresh(data))
      ensures |slack| == 4 * |args| && Written() == old(Written()) + EncodedAll(args) + slack
      ensures size as int == old(size as int) + Room(args)
    {
      hide EncodedAll;
      ghost var before, e := Written(), EncodedAll(args);
      writer := args;
      FlushBinary();
      slack := Written()[|before + e|..];
      assert Written() == before + e + slack;
    }

    /** Any number of flushes of a new binary command: its contents are those of the binary form,
        with whatever was in new memory for the slack. */
    method FlushInParts(parts: seq<seq<Arg>>) returns (ghost slacks: seq<seq<U8>>)
      requires Valid() && code >= 10000 && size == 0 && writer == []
      requires Flushable(parts) && RoomOfAll(parts) <= MAX_SIZE
      modifies this`size, this`data, this`writer, data
      ensures Valid() && Slacks(parts, slacks) && Written() == Flushed(parts, slacks)
    {
      hide EncodedAll, Flushed, Room, AreArgs;
      slacks := [];
      var i := 0;
      FlushedNone();
      assert parts[..0] == [] && parts[0..] == parts;
      while i < |parts|
        invariant 0 <= i <= |parts| && Valid() && writer == [] && (data == old(data) || fresh(data))
        invariant Flushable(parts[..i]) && Slacks(parts[..i], slacks) && Written() == Flushed(parts[..i], slacks)
        invariant size as int + RoomOfAll(parts[i..]) == RoomOfAll(parts)
      {
        assert parts[i..][0] == parts[i] && parts[i..][1..] == parts[i + 1..];
        assert parts[..i + 1] == parts[..i] + [parts[i]];
        ghost var slack := FlushPart(parts[i]);
        FlushedMore(parts[..i], slacks, parts[i], slack);
        slacks := slacks + [slack];
        i := i + 1;
      }
      assert parts[..i] == parts;
    }

    /** `_unshift` of a text command, as a number or a string; a string is stored as a pointer
        into the buffer. */
    method UnshiftAsText(k: Kind) returns (got: Got)
      requires Valid() && code < 10000 && !k.DataKind? && data != null
      requires offset.Some? && offset.value >= 0 && Terminated(data[..], offset.value)
      modifies this`offset, data
      ensures (got, data[..], offset) == (var r := UnshiftText(old(data[..]), old(offset.value), k); (r.got, r.b, r.src))
    {
      hide NextArgument;
      var reader := offset.value;
      ghost var b := data[..];
      if data[reader] == NUL8 {
        return Unset;
      }
      if k.TextKind? {
        var _, src, begin := GetNextArgument(data, Some(reader));
        offset := src;
        return Pointer(begin);
      }
      var field, src := GetNextNumber(data, Some(reader));
      offset := src;
      return if field == None then Unset else Value(ToI32(field.value));
    }

    /** `_unshift` of a binary command, or of data from any. An argument of another type is left alone. */
    method UnshiftAsBinary(k: Kind) returns (got: Option<Arg>)
      requires Valid() && (code >= 10000 || k.DataKind?) && data != null && offset.Some? && offset.value >= 0
      requires !UnshiftBinary(data[..], offset.value, k).Overrun?
      modifies this`offset
      ensures var u := UnshiftBinary(data[..], old(offset.value), k);
              if u.Taken? then got == Some(u.arg) && offset == Some(u.next) else got == None && offset == old(offset)
      ensures forall a | IsArg(a) && KindOf(a) == k && Laid(data[..], old(offset.value), a) ::
                got == Some(a) && offset == Some(old(offset.value) + 4 + Width(a))
      ensures !Typed(data[..], old(offset.value), k) ==> got == None && offset == old(offset)
    {
      Answers(data[..], offset.value, k);
      hide Laid, Typed, Width;
      hide Accumulate, StrEnd, CString, ToI32;
      var b := data[..];
      var reader := offset.value;
      var s, t := Word(b, reader), Word(b, reader + 2);
      if (k.NumberKind? && s != 4) || t != TypeOf(k) {
        return None;
      }
      if k.TextKind? && (s < 1 || b[reader + 4 + s - 1] != NUL8) {
        return None;
      }
      reader := reader + 4;
      match k {
        case NumberKind => got := Some(Number(ToI32(0x1_0000 * Word(b, reader) + Word(b, reader + 2))));
        case TextKind =>
          assert b[reader + s - 1] == NUL8;
          got := Some(Text(CString(b, reader)));
        case DataKind => got := Some(Data(b[reader..reader + s]));
      }
      reader := reader + s;
      offset := Some(reader);
    }

    /** Unpacking a text command. */
    method UnpackAsText(kinds: seq<Kind>) returns (got: seq<Got>)
      requires Valid() && code < 10000 && DataKind !in kinds && data != null
      requires Terminated(data[..], 0) && UnpackText(data[..], Some(0), kinds).Unpacked?
      modifies this`offset, data
      ensures UnpackText(old(data[..]), Some(0), kinds) == Unpacked(data[..], got)
    {
      hide UnshiftText, Terminated;
      offset := Some(0);
      got := [];
      var i := 0;
      assert kinds[0..] == kinds;
      ghost var goal := UnpackText(data[..], Some(0), kinds);
      while i < |kinds|
        invariant 0 <= i <= |kinds|
        invariant offset.Some? ==> offset.value >= 0 && Terminated(data[..], offset.value)
        invariant Continues(data[..], offset, kinds[i..], got, goal)
      {
        ghost var rest := kinds[i..];
        assert rest[0] == kinds[i] && rest[1..] == kinds[i + 1..];
        ContinuesOnce(data[..], offset, rest, got, goal);
        var g := UnshiftAsText(kinds[i]);
        got := got + [g];
        i := i + 1;
      }
      assert kinds[i..] == [] && got + [] == got;
    }

    /** `vunpack` of a binary command */
    method VunpackAsBinary(kinds: seq<Kind>) returns (ok: bool, got: seq<Option<Arg>>)
      requires Valid() && code >= 10000
      requires data != null ==> Vunpack(data[..], size, 0, kinds).Verdict?
      modifies this`offset
      ensures data != null ==> Vunpack(data[..], size, 0, kinds) == Verdict(ok, got)
      ensures data == null ==> ok == (kinds == []) && got == []
    {
      hide UnshiftBinary, Proceeds;
      offset := Some(0);
      got := [];
      var i := 0;
      assert kinds[0..] == kinds;
      if data == null {
        return kinds == [], [];
      }
      ghost var b, goal := data[..], Vunpack(data[..], size, 0, kinds);
      ProceedsStart(b, size, kinds);
      while i < |kinds|
        invariant 0 <= i <= |kinds| && offset.Some? && offset.value >= 0
        invariant Proceeds(b, size, offset.value, kinds[i..], got, goal)
      {
        ghost var rest := kinds[i..];
        assert rest[0] == kinds[i] && rest[1..] == kinds[i + 1..];
        ProceedsOnce(b, size, offset.value, rest, got, goal);
        if offset.value >= size as int {
          return false, got;
        }
        var g := UnshiftAsBinary(kinds[i]);
        got := got + [g];
        i := i + 1;
      }
      ProceedsEnd(b, size, offset.value, got, goal);
      assert kinds[i..] == [];
      return true, got;
    }

    static method Total(args: seq<Arg>) returns (n: nat)
      ensures n == Room(args)
    {
      n := 0;
      var i := 0;
      assert args[0..] == args;
      while i < |args|
        invariant 0 <= i <= |args| && n + Room(args[i..]) == Room(args)
      {
        RoomOfFirst(args[i..]);
        assert args[i..][1..] == args[i + 1..];
        n := n + 4 + |Body(args[i])| + 4;
        i := i + 1;
      }
    }
  }

  /** What is left of an unpacking, after `got`, leads to `goal`. */
  ghost predicate Continues(b: seq<U8>, src: Option<int>, kinds: seq<Kind>, got: seq<Got>, goal: Outcome)
    requires src.Some? ==> src.value >= 0 && Terminated(b, src.value)
  {
    var u := UnpackText(b, src, kinds);
    u.Unpacked? && goal == Unpacked(u.b, got + u.got)
  }

  lemma ContinuesOnce(b: seq<U8>, src: Option<int>, kinds: seq<Kind>, got: seq<Got>, goal: Outcome)
    requires src.Some? ==> src.value >= 0 && Terminated(b, src.value)
    requires kinds != [] && Continues(b, src, kinds, got, goal)
    ensures src.Some?
    ensures var s := UnshiftText(b, src.value, kinds[0]);
            Continues(s.b, s.src, kinds[1..], got + [s.got], goal)
  {
    hide UnshiftText;
    var s := UnshiftText(b, src.value, kinds[0]);
    assert forall r: seq<Got> :: got + ([s.got] + r) == (got + [s.got]) + r;
  }

  /** What is left of a `vunpack`, after `got`, leads to `goal`. */
  ghost predicate Proceeds(b: seq<U8>, size: nat, i: nat, kinds: seq<Kind>, got: seq<Option<Arg>>, goal: Verdict) {
    var v := Vunpack(b, size, i, kinds);
    v.Verdict? && goal == Verdict(v.ok, got + v.got)
  }

  lemma ProceedsStart(b: seq<U8>, size: nat, kinds: seq<Kind>)
    requires Vunpack(b, size, 0, kinds).Verdict?
    ensures Proceeds(b, size, 0, kinds, [], Vunpack(b, size, 0, kinds))
  {
  }

  lemma ProceedsEnd(b: seq<U8>, size: nat, i: nat, got: seq<Option<Arg>>, goal: Verdict)
    ensures Proceeds(b, size, i, [], got, goal) ==> goal == Verdict(true, got)
  {
    assert got + [] == got;
  }

  lemma ProceedsOnce(b: seq<U8>, size: nat, i: nat, kinds: seq<Kind>, got: seq<Option<Arg>>, goal: Verdict)
    requires kinds != [] && Proceeds(b, size, i, kinds, got, goal)
    ensures if i >= size then goal == Verdict(false, got)
            else
              match UnshiftBinary(b, i, kinds[0])
              case Overrun => false
              case Refused => Proceeds(b, size, i, kinds[1..], got + [None], goal)
              case Taken(a, next) => Proceeds(b, size, next, kinds[1..], got + [Some(a)], goal)
  {
    hide UnshiftBinary;
    assert got + [] == got;
    assert forall x, r: seq<Option<Arg>> :: got + ([x] + r) == (got + [x]) + r;
  }

  lemma PrintStep(d: seq<U8>, args: seq<Arg>)
    requires args != [] && forall k | 0 <= k < |args| :: !args[k].Data?
    ensures Print(d, args) == Print(d + (if d == [] then [] else [SPACE]) + Printed(args[0]), args[1..])
  {
  }

  lemma PrintNothing(d: seq<U8>, args: seq<Arg>)
    requires args == []
    ensures Print(d, args) == d
  {
  }

  /** Arguments in text form. They fit, with a NUL, in the room that was made for them. */
  method PrintAll(buf: array<U8>, p: nat, args: seq<Arg>) returns (p': nat)
    requires Printable(args) && (args != [] ==> p + Room(args) < buf.Length)
    requires args == [] ==> p < buf.Length && buf[p] == NUL8
    modifies buf
    ensures p <= p' <= p + Room(args) && p' < buf.Length && buf[p'] == NUL8
    ensures buf[..p'] == Print(old(buf[..p]), args)
  {
    hide Printed, Print, Room, Body, AreArgs;
    p' := p;
    RoomGrows(args);
    var i := 0;
    assert args[0..] == args;
    while i < |args|
      invariant 0 <= i <= |args| && p <= p' && p' + Room(args[i..]) <= p + Room(args)
      invariant p' < buf.Length && (i == |args| ==> buf[p'] == NUL8)
      invariant Print(buf[..p'], args[i..]) == Print(old(buf[..p]), args)
    {
      assert args[i..][0] == args[i] && args[i..][1..] == args[i + 1..];
      RoomOfFirst(args[i..]);
      RoomGrows(args[i + 1..]);
      TextFits(args[i]);
      PrintStep(buf[..p'], args[i..]);
      p' := PrintOne(buf, p', args[i]);
      i := i + 1;
    }
    PrintNothing(buf[..p'], args[i..]);
  }

  /** Arguments in binary form. */
  method EncodeAll(buf: array<U8>, p: nat, args: seq<Arg>) returns (p': nat)
    requires p + Room(args) <= buf.Length && Room(args) <= MAX_SIZE
    modifies buf
    ensures p <= p' <= p + Room(args) && buf[..p'] == old(buf[..p]) + EncodedAll(args)
  {
    hide EncodedAll;
    p' := p;
    var i := 0;
    assert args[0..] == args;
    ghost var all := old(buf[..p]) + EncodedAll(args);
    while i < |args|
      invariant 0 <= i <= |args| && p <= p' && p' + Room(args[i..]) <= p + Room(args)
      invariant buf[..p'] + EncodedAll(args[i..]) == all
    {
      ghost var rest := args[i + 1..];
      assert args[i..][0] == args[i] && args[i..][1..] == rest;
      RoomOfFirst(args[i..]);
      FirstEncoded(args[i..]);
      ghost var before := buf[..p'];
      Assoc(before, Encoded(args[i]), EncodedAll(rest));
      p' := EncodeOne(buf, p', args[i]);
      i := i + 1;
    }
    NoneEncoded(args[i..]);
    assert buf[..p'] + [] == buf[..p'];
  }

  function RoomOfAll(parts: seq<seq<Arg>>): nat {
    if parts == [] then 0 else Room(parts[0]) + RoomOfAll(parts[1..])
  }

  lemma FlushedNone()
    ensures Flushed([], []) == []
  {
  }

  lemma LaidAfter(b: seq<U8>, before: seq<U8>, args: seq<Arg>)
    requires Room(args) <= MAX_SIZE && before + EncodedAll(args) <= b
    ensures LaidAll(b, |before|, args)
  {
    var e := EncodedAll(args);
    assert forall k | 0 <= k < |e| :: b[|before| + k] == (before + e)[|before| + k] == e[k];
    EncodedAllLaid(b, |before|, args);
  }

  lemma Answers(b: seq<U8>, i: nat, k: Kind)
    requires !UnshiftBinary(b, i, k).Overrun?
    ensures i + 4 <= |b| && (!Typed(b, i, k) ==> UnshiftBinary(b, i, k) == Refused)
    ensures forall a | IsArg(a) && KindOf(a) == k && Laid(b, i, a) :: UnshiftBinary(b, i, k) == Taken(a, i + 4 + Width(a))
  {
    forall a | IsArg(a) && KindOf(a) == k && Laid(b, i, a)
      ensures UnshiftBinary(b, i, k) == Taken(a, i + 4 + Width(a))
    {
      LaidTaken(b, i, a);
    }
  }

  lemma FirstEncoded(args: seq<Arg>)
    requires args != [] && Room(args) <= MAX_SIZE
    ensures EncodedAll(args) == Encoded(args[0]) + EncodedAll(args[1..])
  {
  }

  lemma NoneEncoded(args: seq<Arg>)
    requires args == []
    ensures EncodedAll(args) == []
  {
  }

  method EncodeOne(buf: array<U8>, p: nat, a: Arg) returns (p': nat)
    requires |Body(a)| <= MAX_SIZE && p + 4 + |Body(a)| <= buf.Length
    modifies buf
    ensures p' == p + 4 + |Body(a)| && buf[..p'] == old(buf[..p]) + Encoded(a)
  {
    var s, t := Be16(|Body(a)|), Be16(TypeOf(KindOf(a)));
    hide Be16;
    ghost var before := buf[..p];
    p' := p;
    Copy(buf, p', s);
    p' := p' + 2;
    Copy(buf, p', t);
    p' := p' + 2;
    Copy(buf, p', Body(a));
    p' := p' + |Body(a)|;
    Assoc(before, s, t);
    Assoc(before, s + t, Body(a));
  }

  /** One argument in text form, with the space in front of it. */
  method PrintOne(buf: array<U8>, p: nat, a: Arg) returns (p': nat)
    requires !a.Data? && p + 1 + |Printed(a)| < buf.Length
    modifies buf
    ensures p <= p' <= p + 1 + |Printed(a)| && buf[p'] == NUL8
    ensures buf[..p'] == old(buf[..p]) + (if p == 0 then [] else [SPACE]) + Printed(a)
  {
    hide Printed;
    p' := p;
    if p > 0 {
      buf[p'] := SPACE;
      p' := p' + 1;
    }
    assert buf[..p'] == old(buf[..p]) + if p == 0 then [] else [SPACE];
    var t := Printed(a);
    Sprintf(buf, p', t);
    p' := p' + |t|;
  }

  /** `sprintf` */
  method Sprintf(buf: array<U8>, p: nat, t: seq<U8>)
    requires p + |t| < buf.Length
    modifies buf
    ensures buf[..p + |t|] == old(buf[..p]) + t && buf[p + |t|] == NUL8
  {
    Copy(buf, p, t);
    buf[p + |t|] := NUL8;
  }
}
