/** One direction of a connection, from the arguments given at one end to those read at the other. */
module Links {
  import opened Options
  import opened Bytes
  import opened Arguments
  import opened TextCodec
  import opened BinaryCodec
  import opened Commands
  import opened Framing
  import opened Connection

  /** Arguments that can be said with a code: there is no text form of data. */
  ghost predicate Sayable(code: U16, args: seq<Arg>) {
    if code < 10000 then Prints([], args) else Fits(0, args)
  }

  /** What a message says. */
  ghost predicate Carries(m: Message, code: U16, args: seq<Arg>)
    requires Sayable(code, args)
  {
    && m.code == code
    && (code < 10000 ==> m.body == Print([], args))
    && (code >= 10000 ==> EncodedAll(args) <= m.body && |m.body| == |EncodedAll(args)| + 4 * |args|)
  }

  /** The `SAY` macro up to the call of `write` */
  method Pack(code: U16, args: seq<Arg>) returns (c: Command)
    requires Sayable(code, args)
    ensures fresh(c) && c.Valid() && c.data != null && fresh(c.data) && Carries(MessageOf(c), code, args)
  {
    c := new Command(code);
    var i := 0;
    while i < |args|
      invariant 0 <= i <= |args| && c.writer == args[..i]
      invariant c.Valid() && c.Closed() && c.size == 0 && c.data == null && c.code == code
    {
      c.Push(args[i]);
      i := i + 1;
    }
    assert args[..i] == args;
    assert c.Written() == [];
    hide Print, EncodedAll, Room, LaidAll, Printable, AreArgs;
    c.Flush();
    assert code >= 10000 ==> [] + EncodedAll(args) == EncodedAll(args);
  }

  ghost function Members(q: seq<Command>): (s: set<object>)
    ensures forall i | 0 <= i < |q| :: q[i] in s
    ensures forall o | o in s :: exists i :: 0 <= i < |q| && q[i] == o
  {
    set i | 0 <= i < |q| :: q[i]
  }

  ghost function Buffer(c: Command?): set<object>
    reads c
  {
    if c == null then {} else if c.data == null then {c} else {c, c.data}
  }

  class Link {
    const sender: Client
    const receiver: Client
    const pipe: Pipe
    ghost var written: seq<Message>
    ghost var delivered: seq<Message>

    ghost function Repr(): set<object>
      reads this, sender, receiver, receiver.rbuffer
    {
      {this, sender, receiver, pipe} + Members(sender.wqueue) + Buffer(receiver.rbuffer)
    }

    /** Nothing is shared between what is being sent and what is being received. */
    ghost predicate Apart()
      reads this, sender, receiver, receiver.rbuffer, sender.wqueue
    {
      receiver.rbuffer != null ==>
        forall i | 0 <= i < |sender.wqueue| ::
          sender.wqueue[i] != receiver.rbuffer && sender.wqueue[i].data != receiver.rbuffer.data
    }

    /** Every byte written is delivered, being received, under way or yet to be sent, in that order. */
    ghost predicate Valid()
      reads this, sender, receiver, pipe, receiver.rbuffer, sender.wqueue
      reads if receiver.rbuffer == null then {} else {receiver.rbuffer.data}
      reads set c | c in sender.wqueue :: c.data
    {
      && sender.outgoing == pipe && receiver.incoming == pipe
      && sender.Sends() && receiver.Receives() && Apart()
      && Wire(written) == Wire(delivered) + receiver.Partial() + (pipe.bytes + Unsent(sender.wqueue))
    }

    constructor ()
      ensures Valid() && written == [] && delivered == []
      ensures Repr() == {this, sender, receiver, pipe} && fresh(sender) && fresh(receiver) && fresh(pipe)
    {
      var p := new Pipe();
      var back := new Pipe();
      pipe := p;
      sender := new Client(p, back);
      receiver := new Client(back, p);
      written, delivered := [], [];
      new;
      hide Arriving, InTransit, Headed;
    }

    /** Only what was written is delivered, in order and unchanged. */
    lemma InOrder()
      requires Valid()
      ensures delivered <= written
    {
      Assoc(Wire(delivered), receiver.Partial(), pipe.bytes + Unsent(sender.wqueue));
      WireDecodes(delivered, written, receiver.Partial() + (pipe.bytes + Unsent(sender.wqueue)));
    }

    /** When nothing is left to send and nothing under way, everything has been delivered, but for
        a complete command that the next `read` returns. */
    lemma Drained()
      requires Valid() && sender.wqueue == [] && pipe.bytes == []
      ensures receiver.rbuffer == null ==> delivered == written
      ensures receiver.rbuffer != null ==>
                Full(receiver.rbuffer) && written == delivered + [MessageOf(receiver.rbuffer)]
    {
      var p := receiver.Partial();
      assert p + (pipe.bytes + Unsent(sender.wqueue)) == p;
      InOrder();
      Assoc(Wire(delivered), p, pipe.bytes + Unsent(sender.wqueue));
      WireDecodes(delivered, written, p);
      var rest := written[|delivered|..];
      assert written == delivered + rest;
      if receiver.rbuffer != null {
        LastFrame(receiver.rbuffer, rest);
      }
    }

    /** `SAY` */
    method Say(code: U16, args: seq<Arg>)
      requires Valid() && Sayable(code, args)
      modifies Repr()
      ensures Valid() && fresh(Repr() - old(Repr()))
      ensures delivered == old(delivered) && |written| == |old(written)| + 1 && old(written) <= written
      ensures Carries(written[|old(written)|], code, args)
    {
      hide Queued, Unsent, Wire, Moving, Carries, Sayable;
      var c := Pack(code, args);
      ghost var m := MessageOf(c);
      Send(c);
      assert written[|old(written)|] == m;
    }

    /** `write` of a command that nobody else has. */
    method Send(c: Command)
      requires Valid() && c.Valid() && c !in Repr() && c.data != null && c.data !in Repr()
      modifies Repr(), c
      ensures Valid() && fresh(Repr() - old(Repr()) - {c})
      ensures delivered == old(delivered) && written == old(written) + [old(MessageOf(c))]
    {
      hide Queued, Unsent, Wire, Moving, EndOf, Arriving, Frame, Headed;
      ghost var m := MessageOf(c);
      var r := sender.Write(c);
      EndOfAppended(sender.wqueue, old(sender.wqueue), c);
      if receiver.rbuffer != null {
        MoreArrives(receiver.rbuffer, old(pipe.bytes), pipe.bytes);
      }
      WireOne(written, m);
      Assoc(Wire(delivered) + receiver.Partial(), old(pipe.bytes + Unsent(sender.wqueue)), Frame(m));
      written := written + [m];
    }

    /** One `send` call of the sender, at any time */
    method SendOnce()
      requires Valid()
      modifies Repr()
      ensures Valid() && Repr() == old(Repr()) && written == old(written) && delivered == old(delivered)
    {
      hide Queued, Unsent, Wire, Moving;
      var r := sender.SendOnce();
      if receiver.rbuffer != null {
        MoreArrives(receiver.rbuffer, old(pipe.bytes), pipe.bytes);
      }
    }

    /** One `recv` call of the receiver, at any time */
    method RecvOnce()
      requires Valid()
      modifies Repr()
      ensures Valid() && fresh(Repr() - old(Repr())) && written == old(written) && delivered == old(delivered)
    {
      hide Queued, Unsent, Wire, Moving;
      ghost var d, u := Wire(delivered), Unsent(sender.wqueue);
      Regroup(d, receiver.Partial(), pipe.bytes, u);
      if receiver.rbuffer == null {
        var r := receiver.PeekHead();
      } else if !Full(receiver.rbuffer) {
        var r := receiver.RecvMore();
      }
      UnsentKept(sender.wqueue);
      Regroup(d, receiver.Partial(), pipe.bytes, u);
    }

    /** A command that is nobody else's any more */
    ghost predicate Handed(c: Command)
      reads this, sender, receiver, c, sender.wqueue
    {
      && receiver.rbuffer == null
      && forall i | 0 <= i < |sender.wqueue| :: sender.wqueue[i] != c && sender.wqueue[i].data != c.data
    }

    /** End to end: if the next message says `args`, in text that can be read, a command that comes
        is unpacked into just these, though its buffer is changed on the way. */
    method Hear(kinds: seq<Kind>, ghost args: seq<Arg>) returns (com: Command?, got: seq<Got>)
      requires Valid() && Prints([], args) && AllReadable(args) && kinds == Kinds(args)
      requires |delivered| < |written| ==>
                 var m := written[|delivered|]; m.code < 10000 && Carries(m, m.code, args)
      modifies Repr()
      ensures Valid() && written == old(written)
      ensures com != null ==> com.data != null && |got| == |args|
      ensures com != null ==> forall k | 0 <= k < |args| :: Stands(com.data[..], got[k], args[k])
    {
      hide Queued, Unsent, Wire, Moving, Arriving;
      got := [];
      com := Read();
      if com != null {
        SaidIsHeard(com, args);
        KindsOfText(args);
        got := Unpack(com, kinds);
      }
    }

    method Unpack(com: Command, kinds: seq<Kind>) returns (got: seq<Got>)
      requires Valid() && Handed(com) && com.Valid() && com.data != null
      requires com.code < 10000 && DataKind !in kinds && Terminated(com.data[..], 0)
      requires UnpackText(com.data[..], Some(0), kinds).Unpacked?
      modifies com`offset, com.data
      ensures Valid() && UnpackText(old(com.data[..]), Some(0), kinds) == Unpacked(com.data[..], got)
    {
      hide Wire, Moving, Arriving;
      ghost var u := Unsent(sender.wqueue);
      got := com.UnpackAsText(kinds);
      UnsentKept(sender.wqueue);
    }

    /** A later `flush` */
    method Flush()
      requires Valid()
      modifies Repr()
      ensures Valid() && fresh(Repr() - old(Repr())) && written == old(written) && delivered == old(delivered)
    {
      hide Queued, Unsent, Wire, Moving;
      var r := sender.Flush();
      if receiver.rbuffer != null {
        MoreArrives(receiver.rbuffer, old(pipe.bytes), pipe.bytes);
      }
    }

    /** `read`: what it returns is the next message that was written. */
    method Read() returns (com: Command?)
      requires Valid()
      modifies Repr()
      ensures Valid() && fresh(Repr() - old(Repr())) && written == old(written)
      ensures old(receiver.rbuffer != null && Full(receiver.rbuffer)) ==> com != null
      ensures com == null ==> delivered == old(delivered)
      ensures com != null ==> com.Valid() && com.Closed() && com.data != null && com.offset == Some(0)
      ensures com != null ==> |old(delivered)| < |written| && MessageOf(com) == written[|old(delivered)|]
      ensures com != null ==> delivered == old(delivered) + [MessageOf(com)]
      ensures com != null ==> Handed(com) && fresh({com, com.data} - old(Repr()))
    {
      hide Queued, Unsent, Wire, Moving, Arriving;
      com := Fetch();
      if com != null {
        ghost var d, m := Wire(delivered), MessageOf(com);
        WireOne(delivered, m);
        delivered := delivered + [m];
        assert d + Frame(m) + [] == d + Frame(m);
        InOrder();
        assert delivered[|delivered| - 1] == m;
      }
    }

    /** What `read` does to the bytes. */
    method Fetch() returns (com: Command?)
      requires Valid()
      modifies receiver`rbuffer, Buffer(receiver.rbuffer), pipe
      ensures receiver.Receives() && Apart() && sender.Sends()
      ensures old(receiver.rbuffer != null && Full(receiver.rbuffer)) ==> com != null
      ensures com == null ==> Valid() && fresh(Repr() - old(Repr()))
      ensures com != null ==> com.Valid() && com.Closed() && com.data != null && com.offset == Some(0)
      ensures com != null ==> Handed(com) && fresh({com, com.data} - old(Repr()))
      ensures com != null ==>
                Wire(written) == Wire(delivered) + Frame(MessageOf(com)) + (pipe.bytes + Unsent(sender.wqueue))
    {
      hide Wire, Moving, Queued, Unsent, Arriving, Full, Frame;
      ghost var d, u := Wire(delivered), Unsent(sender.wqueue);
      Regroup(d, receiver.Partial(), pipe.bytes, u);
      var r;
      r, com := receiver.Read();
      UnsentKept(sender.wqueue);
      if com == null {
        Regroup(d, receiver.Partial(), pipe.bytes, u);
      } else {
        Regroup(d, Frame(MessageOf(com)), pipe.bytes, u);
      }
    }
  }

  lemma Regroup(a: seq<U8>, b: seq<U8>, c: seq<U8>, d: seq<U8>)
    ensures (a + b) + (c + d) == a + ((b + c) + d)
  {
  }

  lemma LastFrame(c: Command, rest: seq<Message>)
    requires InTransit(c) && Header(c.size, c.code) <= Moving(c) && Moving(c) == Wire(rest)
    ensures Full(c) && rest == [MessageOf(c)]
  {
    var p := Moving(c);
    assert p[..4] == Header(c.size, c.code) == c.head;
    assert rest != [];
    var m := rest[0];
    assert p == Frame(m) + Wire(rest[1..]);
    assert p[..4] == Header(|m.body|, m.code);
    HeaderIs(c.size, c.code, p);
    HeaderIs(|m.body|, m.code, p);
    assert Wire(rest[1..]) == [];
    assert rest[1..] == [];
    assert p[4..] == m.body && p[4..] == c.Written();
  }

  lemma {:induction false} KindsOfText(args: seq<Arg>)
    requires Printable(args)
    ensures DataKind !in Kinds(args)
    decreases |args|
  {
    if args != [] { KindsOfText(args[1..]); }
  }

  // ---------------------------------------------------------------- whole runs

  /** What either end may do at any moment. */
  datatype Action = Saying(code: U16, args: seq<Arg>) | Flushing | Reading | Sending | Receiving

  ghost predicate CanDo(schedule: seq<Action>) {
    forall i | 0 <= i < |schedule| && schedule[i].Saying? :: Sayable(schedule[i].code, schedule[i].args)
  }

  function Said(schedule: seq<Action>): seq<Action> {
    if schedule == [] then []
    else
      var last := |schedule| - 1;
      Said(schedule[..last]) + if schedule[last].Saying? then [schedule[last]] else []
  }

  /** The messages are what was said, in that order. */
  ghost predicate Tells(ms: seq<Message>, schedule: seq<Action>)
    requires CanDo(schedule)
  {
    var said := Said(schedule);
    SaidCanDo(schedule);
    |ms| == |said| && forall k | 0 <= k < |ms| :: Carries(ms[k], said[k].code, said[k].args)
  }

  lemma {:induction false} SaidCanDo(schedule: seq<Action>)
    requires CanDo(schedule)
    ensures CanDo(Said(schedule)) && forall k | 0 <= k < |Said(schedule)| :: Said(schedule)[k].Saying?
  {
    if schedule != [] {
      SaidCanDo(schedule[..|schedule| - 1]);
    }
  }

  /** Every interleaving of the two ends, with every outcome of every socket call: what is read is
      what was said, in order, as far as it has come. */
  method Run(schedule: seq<Action>) returns (link: Link)
    requires CanDo(schedule)
    ensures fresh(link) && link.Valid() && Tells(link.written, schedule) && link.delivered <= link.written
    ensures link.sender.wqueue == [] && link.pipe.bytes == [] && link.receiver.rbuffer == null ==>
              Tells(link.delivered, schedule)
  {
    hide Queued, Unsent, Wire, Moving, Arriving, Tells;
    link := new Link();
    RunOn(link, schedule);
    link.InOrder();
    if link.sender.wqueue == [] && link.pipe.bytes == [] {
      link.Drained();
    }
  }

  method RunOn(link: Link, schedule: seq<Action>)
    requires CanDo(schedule) && link.Valid() && link.written == []
    modifies link.Repr()
    ensures link.Valid() && Tells(link.written, schedule)
  {
    hide Link.Valid, Tells;
    TellsNothing();
    var i := 0;
    while i < |schedule|
      invariant 0 <= i <= |schedule|
      invariant fresh(link.Repr() - old(link.Repr())) && link.Valid() && Tells(link.written, schedule[..i])
    {
      ghost var before, now, ms := schedule[..i], schedule[..i + 1], link.written;
      assert now[..|now| - 1] == before && now[i] == schedule[i];
      Do(link, schedule[i]);
      TellsMore(ms, link.written, now);
      i := i + 1;
    }
    assert schedule[..i] == schedule;
  }

  method Do(link: Link, a: Action)
    requires link.Valid() && (a.Saying? ==> Sayable(a.code, a.args))
    modifies link.Repr()
    ensures link.Valid() && fresh(link.Repr() - old(link.Repr()))
    ensures AddsTo(old(link.written), link.written, a)
  {
    hide Queued, Unsent, Wire, Moving, Arriving, Carries;
    match a {
      case Saying(code, args) => link.Say(code, args);
      case Flushing => link.Flush();
      case Reading => var com := link.Read();
      case Sending => link.SendOnce();
      case Receiving => link.RecvOnce();
    }
  }

  ghost predicate AddsTo(ms: seq<Message>, ms': seq<Message>, a: Action)
    requires a.Saying? ==> Sayable(a.code, a.args)
  {
    if a.Saying? then |ms'| == |ms| + 1 && ms <= ms' && Carries(ms'[|ms|], a.code, a.args) else ms' == ms
  }

  lemma TellsNothing()
    ensures Tells([], [])
  {
  }

  lemma TellsMore(ms: seq<Message>, ms': seq<Message>, schedule: seq<Action>)
    requires CanDo(schedule) && schedule != []
    requires Tells(ms, schedule[..|schedule| - 1]) && AddsTo(ms, ms', schedule[|schedule| - 1])
    ensures Tells(ms', schedule)
  {
    hide Carries, Sayable;
    SaidCanDo(schedule);
  }

  /** Text arguments that were said and can be read back come out of a command that says the same
      unchanged, whoever carried it. */
  lemma SaidIsHeard(c: Command, args: seq<Arg>)
    requires c.Valid() && c.Closed() && c.data != null && c.code < 10000
    requires Sayable(c.code, args) && AllReadable(args) && Carries(MessageOf(c), c.code, args)
    ensures Terminated(c.data[..], 0) && Returns(UnpackText(c.data[..], Some(0), Kinds(args)), args)
  {
    var t := Print([], args);
    TailNoNul(args);
    assert forall k | 0 <= k < |t| :: c.data[k] == c.Written()[k];
    TextRoundTrip(args, c.data[..]);
  }

  /** The same for binary arguments, readable or not. */
  lemma SaidIsHeardInBinary(c: Command, args: seq<Arg>)
    requires c.Valid() && c.data != null && c.code >= 10000 && AreArgs(args)
    requires Sayable(c.code, args) && Carries(MessageOf(c), c.code, args)
    ensures UnpackBinary(c.data[..], 0, Kinds(args)) == Unpacking(Somes(args), |EncodedAll(args)|)
  {
    var e := EncodedAll(args);
    assert c.data[..] == c.Written() + c.data[c.size..];
    assert c.Written() == e + c.Written()[|e|..];
    Assoc(e, c.Written()[|e|..], c.data[c.size..]);
    BinaryRoundTrip(args, c.Written()[|e|..] + c.data[c.size..]);
  }
}
