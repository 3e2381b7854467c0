/** The two ends of a connection: what is written at one is what is read at the other. */
module Connection {
  import opened Options
  import opened Bytes
  import opened Arguments
  import opened TextCodec
  import opened BinaryCodec
  import opened Commands
  import opened Framing

  /** Queued commands are ready to be sent, with their header in place, and all different. */
  ghost predicate Queued(q: seq<Command>)
    reads q
  {
    && (forall i | 0 <= i < |q| :: InTransit(q[i]) && Headed(q[i]))
    && (forall i, j | 0 <= i < j < |q| :: q[i] != q[j])
  }

  ghost function Left(c: Command): seq<U8>
    requires InTransit(c)
    reads c, c.data
  {
    Whole(c)[c.offset.value + 4..]
  }

  /** The bytes that are still to be sent. */
  ghost function Unsent(q: seq<Command>): seq<U8>
    requires Queued(q)
    reads q, set c | c in q :: c.data
  {
    if q == [] then [] else Left(q[0]) + Unsent(q[1..])
  }

  lemma {:induction false} UnsentAppend(q: seq<Command>, c: Command)
    requires Queued(q) && InTransit(c) && Headed(c) && c !in q
    ensures Queued(q + [c]) && Unsent(q + [c]) == Unsent(q) + Left(c)
  {
    hide Left;
    var r := q + [c];
    if q == [] {
      assert r[1..] == [] && Unsent(r[1..]) == [] && Left(c) + [] == Left(c);
    } else {
      assert r[1..] == q[1..] + [c] && r[0] == q[0];
      UnsentAppend(q[1..], c);
      Assoc(Left(q[0]), Unsent(q[1..]), Left(c));
    }
  }

  twostate lemma UnsentKept(q: seq<Command>)
    requires old(Queued(q)) && forall i | 0 <= i < |q| :: unchanged(q[i])
    requires forall i | 0 <= i < |q| :: unchanged(q[i].data)
    ensures Queued(q) && Unsent(q) == old(Unsent(q))
    decreases |q|
  {
    if q != [] {
      assert Left(q[0]) == old(Left(q[0]));
      UnsentKept(q[1..]);
    }
  }

  lemma PopFull(q: seq<Command>)
    requires q != [] && Queued(q) && Full(q[0])
    ensures Queued(q[1..]) && Unsent(q) == Unsent(q[1..])
  {
    assert Left(q[0]) == [];
    assert [] + Unsent(q[1..]) == Unsent(q[1..]);
  }

  method SendSome(c: Command, pipe: Pipe) returns (r: Io)
    requires InTransit(c)
    modifies c`offset, pipe
    ensures InTransit(c) && c.offset.value >= old(c.offset.value) && (r.Moved? ==> c.offset != old(c.offset))
    ensures pipe.refusals == Noted(old(pipe.refusals), r)
    ensures old(pipe.bytes) <= pipe.bytes && pipe.bytes + Left(c) == old(pipe.bytes + Left(c))
  {
    ghost var b, before := Whole(c), c.offset.value + 4;
    r := Send(c, pipe);
    ghost var now := c.offset.value + 4;
    Assoc(old(pipe.bytes), b[before..now], b[now..]);
    assert b[before..] == b[before..now] + b[now..];
  }

  /** A command being received: its header has come, if not yet been taken off the stream, and
      says its size and code. */
  ghost predicate Arriving(c: Command, stream: seq<U8>)
    reads c, c.data
  {
    && InTransit(c) && c.data.Length == c.size as int + 1 && c.data[c.size] == NUL8
    && Header(c.size, c.code) <= Moving(c) + stream
  }

  lemma MoreArrives(c: Command, s: seq<U8>, t: seq<U8>)
    requires Arriving(c, s) && s <= t
    ensures Arriving(c, t)
  {
    assert Moving(c) + t == Moving(c) + s + t[|s|..];
  }

  lemma Arrived(c: Command, stream: seq<U8>)
    requires Arriving(c, stream) && Full(c)
    ensures Moving(c) == Frame(MessageOf(c)) && Headed(c)
  {
    assert Moving(c) == c.head + c.Written();
    assert (Moving(c) + stream)[..4] == c.head;
  }

  ghost predicate EndOf(q: seq<Command>, p: seq<Command>) {
    |q| <= |p| && q == p[|p| - |q|..]
  }

  lemma EndOfAppended(q: seq<Command>, p: seq<Command>, c: Command)
    requires EndOf(q, p + [c])
    ensures forall i | 0 <= i < |q| :: q[i] == c || exists j :: 0 <= j < |p| && p[j] == q[i]
  {
    var d := |p| + 1 - |q|;
    forall i | 0 <= i < |q| && q[i] != c
      ensures exists j :: 0 <= j < |p| && p[j] == q[i]
    {
      assert p[d + i] == q[i];
    }
  }

  lemma EndOfItself(q: seq<Command>)
    ensures EndOf(q, q)
  {
  }

  class Client {
    var rbuffer: Command?
    var wqueue: seq<Command>
    const outgoing: Pipe
    const incoming: Pipe

    constructor (outgoing: Pipe, incoming: Pipe)
      ensures this.outgoing == outgoing && this.incoming == incoming && rbuffer == null && wqueue == []
    {
      this.outgoing, this.incoming, rbuffer, wqueue := outgoing, incoming, null, [];
    }

    ghost predicate Sends()
      reads this`wqueue, wqueue
    {
      Queued(wqueue)
    }

    ghost predicate Receives()
      reads this`rbuffer, rbuffer, if rbuffer == null then {} else {rbuffer.data}, incoming
    {
      rbuffer != null ==> Arriving(rbuffer, incoming.bytes)
    }

    /** What has been received of a command that is not complete. */
    ghost function Partial(): seq<U8>
      requires Receives()
      reads this`rbuffer, rbuffer, if rbuffer == null then {} else {rbuffer.data}, incoming
    {
      if rbuffer == null then [] else Moving(rbuffer)
    }

    /** `flush`: sends what it can, in order. */
    method Flush() returns (r: Io)
      requires Sends()
      modifies this`wqueue, wqueue, outgoing
      ensures Sends() && (r.Moved? ==> wqueue == [])
      ensures EndOf(wqueue, old(wqueue))
      ensures outgoing.refusals == Noted(old(outgoing.refusals), r)
      ensures old(outgoing.bytes) <= outgoing.bytes
      ensures outgoing.bytes + Unsent(wqueue) == old(outgoing.bytes + Unsent(wqueue))
      ensures forall i | 0 <= i < |old(wqueue)| :: old(wqueue)[i].data == old(wqueue[i].data)
    {
      hide Unsent, Queued;
      while wqueue != []
        invariant forall i | 0 <= i < |old(wqueue)| :: old(wqueue)[i].data == old(wqueue[i].data)
        invariant Sends()
        invariant EndOf(wqueue, old(wqueue))
        invariant outgoing.refusals == old(outgoing.refusals)
        invariant old(outgoing.bytes) <= outgoing.bytes
        invariant outgoing.bytes + Unsent(wqueue) == old(outgoing.bytes + Unsent(wqueue))
        decreases |wqueue|
      {
        var com := wqueue[0];
        r := SendAll(com);
        if !r.Moved? {
          return;
        }
        PopFull(wqueue);
        wqueue := wqueue[1..];
      }
      return Moved;
    }

    /** Sends the first command until all of it is gone. */
    method SendAll(com: Command) returns (r: Io)
      requires Sends() && wqueue != [] && com == wqueue[0]
      modifies com`offset, outgoing
      ensures Sends() && (r.Moved? ==> Full(com))
      ensures outgoing.refusals == Noted(old(outgoing.refusals), r)
      ensures old(outgoing.bytes) <= outgoing.bytes
      ensures outgoing.bytes + Unsent(wqueue) == old(outgoing.bytes + Unsent(wqueue))
    {
      assert InTransit(com);
      hide Unsent, Queued;
      while !Full(com)
        invariant Sends() && InTransit(com)
        invariant outgoing.refusals == old(outgoing.refusals)
        invariant old(outgoing.bytes) <= outgoing.bytes
        invariant outgoing.bytes + Unsent(wqueue) == old(outgoing.bytes + Unsent(wqueue))
        decreases com.size as int - com.offset.value
      {
        r := SendFirst(com);
        if !r.Moved? {
          return;
        }
      }
      return Moved;
    }

    /** One `send` of the first command. */
    method SendFirst(com: Command) returns (r: Io)
      requires Sends() && wqueue != [] && com == wqueue[0]
      modifies com`offset, outgoing
      ensures Sends() && InTransit(com) && com.offset.value >= old(com.offset.value)
      ensures r.Moved? ==> com.offset != old(com.offset)
      ensures outgoing.refusals == Noted(old(outgoing.refusals), r)
      ensures old(outgoing.bytes) <= outgoing.bytes
      ensures outgoing.bytes + Unsent(wqueue) == old(outgoing.bytes + Unsent(wqueue))
    {
      hide Left;
      ghost var before, rest := Left(com), Unsent(wqueue[1..]);
      assert Queued(wqueue[1..]);
      r := SendSome(com, outgoing);
      assert Unsent(wqueue[1..]) == rest;
      Assoc(old(outgoing.bytes), before, rest);
      Assoc(outgoing.bytes, Left(com), rest);
    }

    /** One `send` call, if there is anything to send. */
    method SendOnce() returns (r: Io)
      requires Sends()
      modifies wqueue, outgoing
      ensures Sends()
      ensures outgoing.refusals == Noted(old(outgoing.refusals), r)
      ensures old(outgoing.bytes) <= outgoing.bytes
      ensures outgoing.bytes + Unsent(wqueue) == old(outgoing.bytes + Unsent(wqueue))
      ensures forall i | 0 <= i < |old(wqueue)| :: old(wqueue)[i].data == old(wqueue[i].data)
    {
      hide Queued, Unsent;
      r := Moved;
      if wqueue != [] {
        r := SendFirst(wqueue[0]);
      }
    }

    /** `write`: frames the command, queues it and sends at once if nothing was waiting. */
    method Write(c: Command) returns (r: Io)
      requires Sends() && c.Valid() && c !in wqueue
      modifies this`wqueue, wqueue, c, outgoing
      ensures Sends() && EndOf(wqueue, old(wqueue) + [c])
      ensures c.data == old(c.data) || fresh(c.data)
      ensures forall i | 0 <= i < |old(wqueue)| :: old(wqueue)[i].data == old(wqueue[i].data)
      ensures if old(wqueue) == [] then outgoing.refusals == Noted(old(outgoing.refusals), r) && (r.Moved? ==> wqueue == [])
              else wqueue == old(wqueue) + [c] && outgoing.bytes == old(outgoing.bytes)
      ensures old(outgoing.bytes) <= outgoing.bytes
      ensures outgoing.bytes + Unsent(wqueue) == old(outgoing.bytes + Unsent(wqueue)) + Frame(old(MessageOf(c)))
    {
      hide Unsent, Queued, EndOf;
      var empty := wqueue == [];
      Enqueue(c);
      EndOfItself(wqueue);
      r := Moved;
      if empty {
        assert wqueue[0] == c;
        r := Flush();
      }
    }

    method Enqueue(c: Command)
      requires Sends() && c.Valid() && c !in wqueue
      modifies this`wqueue, c
      ensures Sends() && wqueue == old(wqueue) + [c] && (c.data == old(c.data) || fresh(c.data))
      ensures outgoing.bytes + Unsent(wqueue) == old(outgoing.bytes + Unsent(wqueue)) + Frame(old(MessageOf(c)))
    {
      hide Unsent, Queued, Left, Headed;
      ghost var m, before := MessageOf(c), Unsent(wqueue);
      PutHeaderBeside(c, wqueue);
      UnsentAppend(wqueue, c);
      Assoc(outgoing.bytes, before, Frame(m));
      wqueue := wqueue + [c];
    }

    static method PutHeaderBeside(c: Command, ghost q: seq<Command>)
      requires c.Valid() && Queued(q) && c !in q
      modifies c`data, c`head, c`offset
      ensures InTransit(c) && Headed(c) && Left(c) == Frame(old(MessageOf(c)))
      ensures c.data == old(c.data) || fresh(c.data)
      ensures Queued(q) && Unsent(q) == old(Unsent(q))
    {
      PutHeader(c);
      UnsentKept(q);
    }

    /** Puts the header in place. */
    static method PutHeader(c: Command)
      requires c.Valid()
      modifies c`data, c`head, c`offset
      ensures InTransit(c) && Headed(c) && Left(c) == Frame(old(MessageOf(c)))
      ensures c.data == old(c.data) || fresh(c.data)
    {
      ghost var m := MessageOf(c);
      if c.data == null {
        c.data := new U8[0];
      }
      c.head := Header(c.size, c.code);
      c.offset := Some(-4);
      assert Left(c) == c.head + c.Written();
    }

    /** The beginning of `read`: looks at the header, without taking it. */
    method PeekHead() returns (r: Io)
      requires Receives() && rbuffer == null
      modifies this`rbuffer, incoming`refusals
      ensures incoming.refusals == Noted(old(incoming.refusals), r)
      ensures Receives() && Partial() == [] && (r.Moved? <==> rbuffer != null)
      ensures rbuffer != null ==> fresh(rbuffer) && fresh(rbuffer.data)
    {
      var b;
      r, b := incoming.Peek(4);
      if |b| < 4 {
        return if r.Thrown? then Thrown else Later;
      }
      assert b == b[..4] && b <= incoming.bytes;
      HeaderIs(Word(b, 0), Word(b, 2), b);
      var c := new Command(0);
      c.Grow(Word(b, 0));
      c.code := Word(b, 2);
      c.size := Word(b, 0);
      c.offset := Some(-4);
      assert Moving(c) == [] && [] + incoming.bytes == incoming.bytes;
      rbuffer := c;
    }

    /** One `recv` of the command that is arriving. */
    method RecvMore() returns (r: Io)
      requires Receives() && rbuffer != null
      modifies rbuffer`offset, rbuffer`head, rbuffer.data, incoming
      ensures incoming.refusals == Noted(old(incoming.refusals), r)
      ensures Receives() && rbuffer.offset.value >= old(rbuffer.offset.value)
      ensures r.Moved? ==> rbuffer.offset != old(rbuffer.offset)
      ensures Partial() + incoming.bytes == old(Partial() + incoming.bytes)
    {
      assert rbuffer.data[rbuffer.size..][0] == NUL8;
      r := Recv(rbuffer, incoming);
      assert rbuffer.data[rbuffer.size..][0] == NUL8;
    }

    /** Receives the rest of the command that is arriving. */
    method RecvAll() returns (r: Io)
      requires Receives() && rbuffer != null
      modifies rbuffer`offset, rbuffer`head, rbuffer.data, incoming
      ensures incoming.refusals == Noted(old(incoming.refusals), r)
      ensures Receives() && (r.Moved? ==> Full(rbuffer))
      ensures old(Full(rbuffer)) ==> r.Moved?
      ensures Partial() + incoming.bytes == old(Partial() + incoming.bytes)
    {
      hide Moving;
      while !Full(rbuffer)
        invariant incoming.refusals == old(incoming.refusals)
        invariant old(Full(rbuffer)) ==> Full(rbuffer)
        invariant Receives()
        invariant Partial() + incoming.bytes == old(Partial() + incoming.bytes)
        decreases rbuffer.size as int - rbuffer.offset.value
      {
        r := RecvMore();
        if !r.Moved? {
          return;
        }
      }
      return Moved;
    }

    /** `read`: a command if all of it is there. Not one byte after it is taken. */
    method Read() returns (r: Io, com: Command?)
      requires Receives()
      modifies this`rbuffer, rbuffer, if rbuffer == null then {} else {rbuffer.data}, incoming
      ensures Receives() && (r.Moved? <==> com != null)
      ensures incoming.refusals == Noted(old(incoming.refusals), r)
      ensures old(rbuffer != null && Full(rbuffer)) ==> com != null
      ensures com == null ==> Partial() + incoming.bytes == old(Partial() + incoming.bytes)
      ensures com != null ==> rbuffer == null && com.Valid() && com.Closed() && com.data != null
      ensures com != null ==> com.offset == Some(0) && com.data.Length == com.size as int + 1
      ensures com != null ==> Frame(MessageOf(com)) + incoming.bytes == old(Partial() + incoming.bytes)
      ensures com != null ==>
                || (fresh(com) && fresh(com.data))
                || (com == old(rbuffer) && com.data == old(if rbuffer == null then null else rbuffer.data))
      ensures rbuffer != null ==>
                || (fresh(rbuffer) && fresh(rbuffer.data))
                || (rbuffer == old(rbuffer) && rbuffer.data == old(if rbuffer == null then null else rbuffer.data))
    {
      com := null;
      if rbuffer == null {
        r := PeekHead();
        if !r.Moved? {
          return;
        }
        assert [] + incoming.bytes == incoming.bytes;
      }
      r := RecvAll();
      if !r.Moved? {
        return;
      }
      Arrived(rbuffer, incoming.bytes);
      com := rbuffer;
      com.offset := Some(0);
      rbuffer := null;
      r := Moved;
    }
  }
}
