/** Commands on a byte stream: framed by their size and code, sent and received piece by piece. */
module Framing {
  import opened Options
  import opened Bytes
  import opened Arguments
  import opened TextCodec
  import opened BinaryCodec
  import opened Commands

  type Payload = s: seq<U8> | |s| <= MAX_SIZE

  /** What a command says, wherever it is kept. */
  datatype Message = Message(code: U16, body: Payload)

  /** `CommandHead` in network order */
  function Header(size: U16, code: U16): (s: seq<U8>)
    ensures |s| == 4
  {
    Be16(size) + Be16(code)
  }

  function Frame(m: Message): (s: seq<U8>)
    ensures |s| == 4 + |m.body|
  {
    Header(|m.body|, m.code) + m.body
  }

  function Wire(ms: seq<Message>): seq<U8> {
    if ms == [] then [] else Frame(ms[0]) + Wire(ms[1..])
  }

  lemma HeaderIs(size: U16, code: U16, b: seq<U8>)
    requires |b| >= 4
    ensures b[..4] == Header(size, code) <==> Word(b, 0) == size as int && Word(b, 2) == code as int
  {
    var h := Header(size, code);
    if b[..4] == h {
      assert b[0] == h[0] && b[1] == h[1] && b[2] == h[2] && b[3] == h[3];
    }
  }

  /** A frame byte by byte: the size, the code, high bytes first, and the contents. */
  lemma FrameBytes(m: Message)
    ensures var f := Frame(m);
            && |f| == 4 + |m.body| && 256 * (f[0] as int) + f[1] == |m.body| && 256 * (f[2] as int) + f[3] == m.code as int
            && f[4..] == m.body
  {
  }

  /** A frame says itself where it ends. */
  lemma FramesDiffer(m: Message, n: Message, x: seq<U8>, y: seq<U8>)
    requires Frame(m) + x == Frame(n) + y
    ensures m == n && x == y
  {
    var b := Frame(m) + x;
    assert b[..4] == Header(|m.body|, m.code) && b[..4] == Header(|n.body|, n.code);
    HeaderIs(|m.body|, m.code, b);
    HeaderIs(|n.body|, n.code, b);
    assert m.body == b[4..4 + |m.body|] == n.body;
    assert x == b[4 + |m.body|..] == y;
  }

  lemma {:induction false} WireAppend(a: seq<Message>, b: seq<Message>)
    ensures Wire(a + b) == Wire(a) + Wire(b)
  {
    if a == [] {
      assert a + b == b;
    } else {
      assert (a + b)[1..] == a[1..] + b;
      WireAppend(a[1..], b);
      Assoc(Frame(a[0]), Wire(a[1..]), Wire(b));
    }
  }

  lemma WireOne(a: seq<Message>, m: Message)
    ensures Wire(a + [m]) == Wire(a) + Frame(m)
  {
    WireAppend(a, [m]);
    assert Wire([m]) == Frame(m) + [];
  }

  /** What has been read off the wire, frame by frame, is what was written on it so far. */
  lemma {:induction false} WireDecodes(a: seq<Message>, b: seq<Message>, x: seq<U8>)
    requires Wire(a) + x == Wire(b)
    ensures a <= b && x == Wire(b[|a|..])
    decreases |a|
  {
    if a == [] {
      assert Wire(a) + x == x && b[0..] == b;
    } else {
      Assoc(Frame(a[0]), Wire(a[1..]), x);
      assert b != [];
      FramesDiffer(a[0], b[0], Wire(a[1..]) + x, Wire(b[1..]));
      WireDecodes(a[1..], b[1..], x);
      assert a == [a[0]] + a[1..] && b == [b[0]] + b[1..] && b[1..][|a| - 1..] == b[|a|..];
    }
  }

  // ---------------------------------------------------------------- the stream

  /** How a socket call went: some bytes, not now, or an error. */
  datatype Io = Moved | Later | Thrown

  /** One direction of a connection: bytes that have been sent and not yet received. Any call may
      move any number of bytes, or none. */
  class Pipe {
    var bytes: seq<U8>
    /** How the calls went that did not give what they were for */
    ghost var refusals: seq<Io>

    constructor ()
      ensures bytes == [] && refusals == []
    {
      bytes, refusals := [], [];
    }

    method Send(d: seq<U8>) returns (r: Io, n: nat)
      modifies this
      ensures if r.Moved? then 0 < n <= |d| else n == 0
      ensures bytes == old(bytes) + d[..n]
      ensures refusals == Noted(old(refusals), r)
    {
      r, n := Allow(|d|);
      bytes := bytes + d[..n];
      refusals := Noted(refusals, r);
    }

    /** Looks at bytes without taking them; it is no use if it does not show all that were asked for. */
    method Peek(max: nat) returns (r: Io, d: seq<U8>)
      modifies this`refusals
      ensures |d| <= max && d <= bytes && (r.Moved? <==> d != [])
      ensures refusals == Noted(old(refusals), if r.Moved? && |d| < max then Later else r)
    {
      var n;
      r, n := Allow(if max < |bytes| then max else |bytes|);
      d := bytes[..n];
      refusals := Noted(refusals, if r.Moved? && n < max then Later else r);
    }

    method Recv(max: nat) returns (r: Io, d: seq<U8>)
      modifies this
      ensures |d| <= max && old(bytes) == d + bytes && (r.Moved? <==> d != [])
      ensures refusals == Noted(old(refusals), r)
    {
      var n;
      r, n := Allow(if max < |bytes| then max else |bytes|);
      d := bytes[..n];
      bytes := bytes[n..];
      refusals := Noted(refusals, r);
    }
  }

  ghost function Noted(refusals: seq<Io>, r: Io): seq<Io> {
    if r.Moved? then refusals else refusals + [r]
  }

  /** What a call returns is beyond the program. */
  method Allow(max: nat) returns (r: Io, n: nat)
    ensures if r.Moved? then 0 < n <= max else n == 0
  {
    var ret: int, again: bool := *, *;
    if ret > max { ret := max; }
    if ret < 1 {
      return if ret < 0 && again then Later else Thrown, 0;
    }
    return Moved, ret;
  }

  // ---------------------------------------------------------------- commands in transit

  ghost function MessageOf(c: Command): Message
    requires c.Valid()
    reads c, c.data
  {
    Message(c.code, c.Written())
  }

  /** Ready to be moved, some of it already: positions count from the four bytes in front. */
  ghost predicate InTransit(c: Command)
    reads c
  {
    c.Valid() && c.data != null && c.offset.Some? && -4 <= c.offset.value <= c.size as int
  }

  ghost predicate Headed(c: Command)
    reads c`head, c`size, c`code
  {
    c.head == Header(c.size, c.code)
  }

  ghost function Whole(c: Command): (s: seq<U8>)
    requires c.Valid()
    reads c, c.data
    ensures |s| == 4 + c.size as int
  {
    c.head + c.Written()
  }

  function Full(c: Command): bool
    reads c
  {
    c.offset == Some(c.size as int)
  }

  ghost function Moving(c: Command): (s: seq<U8>)
    requires InTransit(c)
    reads c, c.data
  {
    Whole(c)[..c.offset.value + 4]
  }

  /** `Socket::send(Command *)` */
  method Send(c: Command, pipe: Pipe) returns (r: Io)
    requires InTransit(c)
    modifies c`offset, pipe
    ensures InTransit(c) && c.offset.value >= old(c.offset.value) && (r.Moved? ==> c.offset != old(c.offset))
    ensures pipe.refusals == Noted(old(pipe.refusals), r)
    ensures pipe.bytes == old(pipe.bytes) + Whole(c)[old(c.offset.value) + 4..c.offset.value + 4]
  {
    var n;
    ghost var b := Whole(c);
    var rest := c.head + c.data[..c.size];
    rest := rest[c.offset.value + 4..];
    r, n := pipe.Send(rest);
    assert rest[..n] == b[c.offset.value + 4..][..n] == b[c.offset.value + 4..c.offset.value + 4 + n];
    c.offset := Some(c.offset.value + n);
  }

  /** `Socket::recv(Command *)` */
  method Recv(c: Command, pipe: Pipe) returns (r: Io)
    requires InTransit(c)
    modifies c`offset, c`head, c.data, pipe
    ensures InTransit(c) && c.offset.value >= old(c.offset.value) && (r.Moved? ==> c.offset != old(c.offset))
    ensures pipe.refusals == Noted(old(pipe.refusals), r)
    ensures Moving(c) + pipe.bytes == old(Moving(c) + pipe.bytes)
    ensures c.data[c.size..] == old(c.data[c.size..])
  {
    var d;
    ghost var before := Moving(c);
    r, d := pipe.Recv(c.size as int - c.offset.value);
    assert before + (d + pipe.bytes) == old(Moving(c) + pipe.bytes);
    Assoc(before, d, pipe.bytes);
    Store(c, d);
  }

  /** Bytes received go to the position and move it on. */
  method Store(c: Command, d: seq<U8>)
    requires InTransit(c) && c.offset.value + |d| <= c.size as int
    modifies c`offset, c`head, c.data
    ensures InTransit(c) && c.offset == Some(old(c.offset.value) + |d|)
    ensures Moving(c) == old(Moving(c)) + d
    ensures c.data[c.size..] == old(c.data[c.size..])
  {
    hide Moving;
    if c.offset.value >= 0 {
      StoreData(c, d);
    } else if c.offset.value + |d| <= 0 {
      StoreHead(c, d);
    } else {
      var h := -c.offset.value;
      ghost var before := Moving(c);
      StoreHead(c, d[..h]);
      StoreData(c, d[h..]);
      Assoc(before, d[..h], d[h..]);
      assert d == d[..h] + d[h..];
    }
  }

  method StoreHead(c: Command, d: seq<U8>)
    requires InTransit(c) && c.offset.value + |d| <= 0
    modifies c`offset, c`head
    ensures InTransit(c) && c.offset == Some(old(c.offset.value) + |d|)
    ensures Moving(c) == old(Moving(c)) + d
  {
    var o := c.offset.value + 4;
    c.head := c.head[..o] + d + c.head[o + |d|..];
    c.offset := Some(c.offset.value + |d|);
  }

  method StoreData(c: Command, d: seq<U8>)
    requires InTransit(c) && c.offset.value >= 0 && c.offset.value + |d| <= c.size as int
    modifies c`offset, c.data
    ensures InTransit(c) && c.offset == Some(old(c.offset.value) + |d|)
    ensures Moving(c) == old(Moving(c)) + d
    ensures c.data[c.size..] == old(c.data[c.size..])
  {
    var o := c.offset.value;
    MovingData(c);
    hide Moving;
    Copy(c.data, o, d);
    c.offset := Some(o + |d|);
    MovingData(c);
    Assoc(c.head, old(c.data[..o]), d);
  }

  lemma MovingData(c: Command)
    requires InTransit(c) && c.offset.value >= 0
    ensures Moving(c) == c.head + c.data[..c.offset.value]
  {
  }
}
