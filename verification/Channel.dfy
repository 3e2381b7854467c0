/** Channels: every member's picture of a channel is made of the messages sent to it alone. */
module Channels {
  import opened Options
  import opened Spelling
  import Bytes

  /** What is sent to users. */
  datatype Message =
    | JoinAccepted(chan: string)
    | UserHere(chan: string, user: string, linespeed: Bytes.U8)
    | UserJoin(chan: string, user: string, linespeed: Bytes.U8)
    | UserPart(chan: string, user: string, linespeed: Bytes.U8)
    | PartChan(chan: string)
    | JoinCompleted(chan: string)
    | ChannelTopic(chan: string, topic: string)
    | Other

  type Roster = map<string, Bytes.U8>

  /** A client's picture of the channel `chan` after one more message; `None` is outside. */
  function Follow(view: Option<Roster>, m: Message, chan: string): Option<Roster> {
    if m.Other? || m.chan != chan then view
    else
      match m
      case JoinAccepted(_) => Some(map[])
      case PartChan(_) => None
      case UserHere(_, u, s) => if view.Some? then Some(view.value[u := s]) else None
      case UserJoin(_, u, s) => if view.Some? then Some(view.value[u := s]) else None
      case UserPart(_, u, s) => if view.Some? then Some(view.value - {u}) else None
      case _ => view
  }

  function Replay(ms: seq<Message>, chan: string): Option<Roster> {
    if ms == [] then None
    else Follow(Replay(ms[..|ms| - 1], chan), ms[|ms| - 1], chan)
  }

  /** Only messages of the channel `chan`, or of none, were added. */
  ghost predicate Adds(before: seq<Message>, after: seq<Message>, chan: string) {
    before <= after && forall k | |before| <= k < |after| :: after[k].Other? || after[k].chan == chan
  }

  /** The picture of one channel is not touched by the messages of another. */
  lemma {:induction false} OthersUnmoved(before: seq<Message>, after: seq<Message>, chan: string, other: string)
    requires Adds(before, after, chan) && other != chan
    ensures Replay(after, other) == Replay(before, other)
    decreases |after|
  {
    if |after| == |before| {
      assert after == before;
    } else {
      OthersUnmoved(before, after[..|after| - 1], chan, other);
    }
  }

  lemma AddsNothing(users: set<User>)
    ensures forall u, chan | u in users :: Adds(u.outbox, u.outbox, chan)
  {
  }

  class User {
    const name: string
    const linespeed: Bytes.U8
    var outbox: seq<Message>

    constructor (name: string, linespeed: Bytes.U8)
      ensures this.name == name && this.linespeed == linespeed && outbox == []
    {
      this.name, this.linespeed, outbox := name, linespeed, [];
    }

    method Write(m: Message)
      modifies this`outbox
      ensures outbox == old(outbox) + [m]
      ensures forall chan :: Replay(outbox, chan) == Follow(old(Replay(outbox, chan)), m, chan)
      ensures forall before, chan :: Adds(before, old(outbox), chan) && (m.Other? || m.chan == chan) ==>
                                       Adds(before, outbox, chan)
    {
      outbox := outbox + [m];
    }
  }

  type Members = map<string, User>

  ghost predicate Keyed(members: Members) {
    forall k | k in members :: Fold(members[k].name) == k
  }

  function Names(members: Members): set<string> {
    set k | k in members :: members[k].name
  }

  /** The members, as they should appear to each other. */
  ghost function RosterOf(members: Members): Roster
    requires Keyed(members)
  {
    map n | n in Names(members) :: members[Fold(n)].linespeed
  }

  lemma RosterInsert(members: Members, u: User)
    requires Keyed(members) && Fold(u.name) !in members
    ensures Keyed(members[Fold(u.name) := u])
    ensures RosterOf(members[Fold(u.name) := u]) == RosterOf(members)[u.name := u.linespeed]
  {
    var after := members[Fold(u.name) := u];
    assert forall n | n in Names(members) :: n in Names(after) by {
      assert forall k | k in members :: after[k] == members[k];
    }
    assert u.name in Names(after) by { assert after[Fold(u.name)] == u; }
  }

  lemma RosterRemove(members: Members, k: string)
    requires Keyed(members) && k in members
    ensures Keyed(members - {k})
    ensures RosterOf(members - {k}) == RosterOf(members) - {members[k].name}
  {
    NameGone(members, k);
    hide RosterOf;
    RosterInsert(members - {k}, members[k]);
    assert members == (members - {k})[k := members[k]];
  }

  lemma NameGone(members: Members, k: string)
    requires Keyed(members) && k in members
    ensures Keyed(members - {k}) && members[k].name !in RosterOf(members - {k})
  {
  }

  /** A name is in the map if a member bears it, in whatever spelling. */
  lemma Folds(members: Members, who: string)
    ensures Keyed(members) ==> (Fold(who) in members <==> exists x :: x in members.Values && SameName(x.name, who))
    ensures Keyed(members) && Fold(who) in members ==> SameName(members[Fold(who)].name, who)
  {
    forall k | k in members
      ensures Fold(members[k].name) == Fold(who) <==> SameName(members[k].name, who)
    {
      FoldSame(members[k].name, who);
    }
    hide Fold;
  }

  /** The member of that name, in whatever spelling; none if nobody bears it. */
  ghost predicate Finds(members: Members, who: string, u: Option<User>) {
    match u
    case Some(x) => x in members.Values && SameName(x.name, who)
    case None => forall x | x in members.Values :: !SameName(x.name, who)
  }

  lemma ValuesInsert(members: Members, u: User)
    requires Fold(u.name) !in members
    ensures members[Fold(u.name) := u].Values == members.Values + {u}
  {
    var after := members[Fold(u.name) := u];
    assert forall k | k in members :: after[k] == members[k];
    assert after[Fold(u.name)] == u;
  }

  /** A user becomes a member unless somebody bears the name already, in whatever spelling. */
  ghost predicate Gains(before: Members, after: Members, u: User) {
    after.Values == if exists x :: x in before.Values && SameName(x.name, u.name) then before.Values
    else before.Values + {u}
  }

  lemma GainsNobody(members: Members, u: User)
    requires Keyed(members) && Fold(u.name) in members
    ensures Gains(members, members, u)
  {
    Folds(members, u.name);
  }

  lemma GainsOne(members: Members, after: Members, u: User)
    requires Keyed(members) && Fold(u.name) !in members && after == members[Fold(u.name) := u]
    ensures Gains(members, after, u)
  {
    Folds(members, u.name);
    ValuesInsert(members, u);
  }

  lemma ValuesRemove(members: Members, k: string)
    requires Keyed(members) && k in members
    ensures (members - {k}).Values == members.Values - {members[k]}
  {
    var after := members - {k};
    assert forall j | j in after :: members[j] == after[j];
  }

  /** The roster lists the names of the members and nothing else, each with its line speed. */
  lemma RosterMeans(members: Members)
    requires Keyed(members)
    ensures forall n :: n in RosterOf(members) <==> exists x :: x in members.Values && x.name == n
    ensures forall x | x in members.Values :: x.name in RosterOf(members) && RosterOf(members)[x.name] == x.linespeed
  {
    forall x | x in members.Values
      ensures x.name in RosterOf(members) && RosterOf(members)[x.name] == x.linespeed
    {
      var k :| k in members && members[k] == x;
    }
    forall n | n in RosterOf(members)
      ensures exists x :: x in members.Values && x.name == n
    {
      var k :| k in members && members[k].name == n;
      assert members[k] in members.Values;
    }
  }

  class Channel {
    const name: string
    const topic: string
    var members: Members
    /** Everybody there is */
    ghost const users: set<User>

    constructor (name: string, topic: string, ghost users: set<User>)
      requires forall u | u in users :: Replay(u.outbox, name) == None
      ensures this.name == name && this.topic == topic && this.users == users && members == map[] && Valid()
    {
      this.name, this.topic, this.users, members := name, topic, users, map[];
    }

    ghost predicate Member(u: User)
      reads this
    {
      Fold(u.name) in members && members[Fold(u.name)] == u
    }

    ghost predicate Entered()
      reads this
    {
      Keyed(members) && forall k | k in members :: members[k] in users
    }

    /** Members see the channel as it is, and nobody else sees it at all. */
    ghost predicate Valid()
      reads this, users
    {
      && Entered()
      && forall u | u in users ::
           Replay(u.outbox, name) == if Member(u) then Some(RosterOf(members)) else None
    }

    /** Whatever happens in another channel changes nothing here. */
    twostate lemma StillValid(other: string)
      requires old(Valid()) && unchanged(this) && other != name
      requires forall u | u in users :: Adds(old(u.outbox), u.outbox, other)
      ensures Valid()
    {
      forall u | u in users
        ensures Replay(u.outbox, name) == Replay(old(u.outbox), name)
      {
        OthersUnmoved(old(u.outbox), u.outbox, other, name);
      }
    }

    function Find(who: string): (u: Option<User>)
      reads this
      ensures u.Some? ==> Fold(who) in members && members[Fold(who)] == u.value
      ensures u == None ==> Fold(who) !in members
      ensures Keyed(members) ==> Finds(members, who, u)
    {
      Folds(members, who);
      if Fold(who) in members then Some(members[Fold(who)]) else None
    }

    /** What others see while `client`, just admitted, is announced to those not in `todo`. */
    ghost predicate Announced(client: User, todo: set<string>, before: Roster)
      reads this, users
    {
      && Entered() && Member(client) && todo <= members.Keys
      && Replay(client.outbox, name) == Some(RosterOf(Without(members, todo)))
      && forall u | u in users && u != client ::
           Replay(u.outbox, name)
           == if !Member(u) then None else if Fold(u.name) in todo then Some(before) else Some(RosterOf(members))
    }

    method Insert(client: User)
      requires Valid() && client in users
      modifies this`members, users`outbox
      ensures Valid()
      ensures members == if Fold(client.name) in old(members) then old(members)
                         else old(members)[Fold(client.name) := client]
      ensures Fold(client.name) !in old(members) ==>
                |client.outbox| >= 2 && client.outbox[|client.outbox| - 2..] == [JoinCompleted(name), ChannelTopic(name, topic)]
      ensures forall u | u in users :: Adds(old(u.outbox), u.outbox, name)
      ensures Gains(old(members), members, client)
    {
      AddsNothing(users);
      hide Replay, RosterOf, Adds, Joined, Without, Announced, Fold, Gains, Finds;
      if Find(client.name).Some? {
        GainsNobody(members, client);
        return;
      }
      ghost var before := RosterOf(members);
      Admit(client);
      GainsOne(old(members), members, client);
      AnnounceAll(client, before);
      Complete(client, before);
    }

    method Complete(client: User, ghost before: Roster)
      requires Announced(client, {}, before) && client in users
      modifies client`outbox
      ensures Valid()
      ensures client.outbox == old(client.outbox) + [JoinCompleted(name), ChannelTopic(name, topic)]
      ensures forall start | Adds(start, old(client.outbox), name) :: Adds(start, client.outbox, name)
    {
      hide Replay, RosterOf, Adds, Without;
      WithoutNone(members);
      client.Write(JoinCompleted(name));
      client.Write(ChannelTopic(name, topic));
    }

    /** Tells a new member who is here, and everybody else of the new member, in whatever order. */
    method AnnounceAll(client: User, ghost before: Roster)
      requires Announced(client, members.Keys, before) && client in users
      requires Joined(before, client, RosterOf(members))
      modifies users`outbox
      ensures Announced(client, {}, before)
      ensures forall u, start | u in users && Adds(start, old(u.outbox), name) :: Adds(start, u.outbox, name)
    {
      hide Replay, RosterOf, Keyed, Adds, Joined, Without;
      var todo := members.Keys;
      while todo != {}
        invariant Announced(client, todo, before)
        invariant forall u, start | u in users && Adds(start, old(u.outbox), name) :: Adds(start, u.outbox, name)
        decreases todo
      {
        var k :| k in todo;
        Announce(client, todo, before, k);
        todo := todo - {k};
      }
    }

    method Admit(client: User)
      requires Valid() && client in users && Fold(client.name) !in members
      modifies this`members, client`outbox
      ensures members == old(members)[Fold(client.name) := client]
      ensures Announced(client, members.Keys, old(RosterOf(members)))
      ensures Joined(old(RosterOf(members)), client, RosterOf(members))
      ensures Adds(old(client.outbox), client.outbox, name)
    {
      hide Replay, RosterOf, Without;
      RosterInsert(members, client);
      hide Keyed;
      members := members[Fold(client.name) := client];
      client.Write(JoinAccepted(name));
      WithoutAll(members);
    }

    /** One turn of announcing a new member. */
    method Announce(client: User, ghost todo: set<string>, ghost before: Roster, k: string)
      requires Announced(client, todo, before) && client in users && k in todo
      requires Joined(before, client, RosterOf(members))
      modifies users`outbox
      ensures Announced(client, todo - {k}, before)
      ensures forall u, start | u in users && Adds(start, old(u.outbox), name) :: Adds(start, u.outbox, name)
    {
      hide Replay, RosterOf, Adds;
      var m := members[k];
      WithoutOneLess(members, todo, k);
      client.Write(UserHere(name, m.name, m.linespeed));
      if m != client {
        m.Write(UserJoin(name, client.name, client.linespeed));
      }
    }

    method Remove(client: User)
      requires Valid() && client in users
      modifies this`members, users`outbox
      ensures Valid()
      ensures members == if old(Member(client)) then old(members) - {Fold(client.name)} else old(members)
      ensures forall u | u in users :: Adds(old(u.outbox), u.outbox, name)
    {
      hide Replay, RosterOf, Adds;
      AddsNothing(users);
      var todo := members.Keys;
      while todo != {}
        invariant todo <= members.Keys && forall k | k in members && k !in todo :: members[k] != client
        decreases todo
      {
        var k :| k in todo;
        if members[k] == client {
          Part(client, k);
          return;
        }
        todo := todo - {k};
      }
    }

    method Part(client: User, k: string)
      requires Valid() && client in users && k in members && members[k] == client
      modifies this`members, users`outbox
      ensures Valid() && members == old(members) - {k}
      ensures forall u, start | u in users && Adds(start, old(u.outbox), name) :: Adds(start, u.outbox, name)
    {
      hide Replay, RosterOf, Adds;
      ghost var before := RosterOf(members);
      RosterRemove(members, k);
      members := members - {k};
      TellParted(client, before);
      client.Write(PartChan(name));
    }

    /** What others see while those not in `todo` have been told that `client` left. */
    ghost predicate Parting(client: User, todo: set<string>, before: Roster)
      reads this, users
    {
      && Entered() && client in users && !Member(client) && todo <= members.Keys
      && Replay(client.outbox, name) == Some(before)
      && forall u | u in users && u != client ::
           Replay(u.outbox, name)
           == if !Member(u) then None else if Fold(u.name) in todo then Some(before) else Some(RosterOf(members))
    }

    method TellParted(client: User, ghost before: Roster)
      requires Parting(client, members.Keys, before) && before - {client.name} == RosterOf(members)
      modifies users`outbox
      ensures Parting(client, {}, before)
      ensures forall u, start | u in users && Adds(start, old(u.outbox), name) :: Adds(start, u.outbox, name)
    {
      hide Replay, RosterOf, Adds;
      var todo := members.Keys;
      while todo != {}
        invariant Parting(client, todo, before)
        invariant forall u, start | u in users && Adds(start, old(u.outbox), name) :: Adds(start, u.outbox, name)
        decreases todo
      {
        var k :| k in todo;
        var m := members[k];
        m.Write(UserPart(name, client.name, client.linespeed));
        todo := todo - {k};
      }
    }

    method Clear()
      requires Valid()
      modifies this`members, users`outbox
      ensures Valid() && members == map[]
      ensures forall u | u in users :: Adds(old(u.outbox), u.outbox, name)
    {
      AddsNothing(users);
      DismissAll();
      members := map[];
    }

    method DismissAll()
      requires Valid()
      modifies users`outbox
      ensures forall u | u in users :: Replay(u.outbox, name) == None
      ensures forall u, start | u in users && Adds(start, old(u.outbox), name) :: Adds(start, u.outbox, name)
    {
      hide Replay, RosterOf, Adds;
      var todo := members.Keys;
      while todo != {}
        invariant todo <= members.Keys
        invariant forall u | u in users ::
                    (Replay(u.outbox, name) != None ==> Fold(u.name) in todo && members[Fold(u.name)] == u)
        invariant forall u, start | u in users && Adds(start, old(u.outbox), name) :: Adds(start, u.outbox, name)
        decreases todo
      {
        var k :| k in todo;
        var m := members[k];
        m.Write(PartChan(name));
        todo := todo - {k};
      }
    }

    /** Every member gets `m`, once, and nobody else does. */
    method Broadcast(m: Message)
      requires Valid()
      modifies users`outbox
      ensures forall u | u in users :: u.outbox == old(u.outbox) + if Member(u) then [m] else []
      ensures m.Other? ==> Valid()
    {
      hide Replay, RosterOf, Adds;
      var todo := members.Keys;
      while todo != {}
        invariant todo <= members.Keys
        invariant forall u | u in users ::
                    u.outbox == old(u.outbox) + if Member(u) && Fold(u.name) !in todo then [m] else []
        invariant m.Other? ==> forall u | u in users :: Replay(u.outbox, name) == Replay(old(u.outbox), name)
        decreases todo
      {
        var k :| k in todo;
        var x := members[k];
        x.Write(m);
        todo := todo - {k};
      }
    }
  }

  ghost predicate Joined(before: Roster, u: User, after: Roster) {
    after == before[u.name := u.linespeed]
  }

  ghost function Without(members: Members, todo: set<string>): Members {
    map k | k in members && k !in todo :: members[k]
  }

  lemma WithoutAll(members: Members)
    requires Keyed(members)
    ensures RosterOf(Without(members, members.Keys)) == map[]
  {
    assert Without(members, members.Keys) == map[];
  }

  lemma WithoutNone(members: Members)
    ensures Without(members, {}) == members
  {
  }

  lemma WithoutOneLess(members: Members, todo: set<string>, k: string)
    requires Keyed(members) && k in todo && k in members
    ensures RosterOf(Without(members, todo - {k}))
         == RosterOf(Without(members, todo))[members[k].name := members[k].linespeed]
  {
    hide RosterOf;
    RosterInsert(Without(members, todo), members[k]);
    assert Without(members, todo - {k}) == Without(members, todo)[k := members[k]];
  }

  // ---------------------------------------------------------------- whole runs

  datatype Act = Enter(chan: nat, user: User) | Leave(chan: nat, user: User) | Close(chan: nat)

  /** What an act makes of the members of one channel. */
  function Acted(members: Members, a: Act): Members {
    match a
    case Enter(_, u) => if Fold(u.name) in members then members else members[Fold(u.name) := u]
    case Leave(_, u) => if Fold(u.name) in members && members[Fold(u.name)] == u then members - {Fold(u.name)} else members
    case Close(_) => map[]
  }

  /** Nobody can enter under a name that is taken, in whatever spelling; leaving takes just that
      user away. */
  lemma ActedMeans(members: Members, a: Act)
    requires Keyed(members)
    ensures Keyed(Acted(members, a))
    ensures match a
            case Enter(_, u) => Gains(members, Acted(members, a), u)
            case Leave(_, u) => Acted(members, a).Values == members.Values - {u}
            case Close(_) => Acted(members, a).Values == {}
  {
    match a
    case Enter(_, u) =>
      if Fold(u.name) in members { GainsNobody(members, u); } else { GainsOne(members, Acted(members, a), u); }
    case Leave(_, u) =>
      if Fold(u.name) in members && members[Fold(u.name)] == u { ValuesRemove(members, Fold(u.name)); }
    case Close(_) =>
  }

  function MembersAfter(members: Members, chan: nat, acts: seq<Act>): Members {
    if acts == [] then members
    else
      var before := MembersAfter(members, chan, acts[..|acts| - 1]);
      if acts[|acts| - 1].chan == chan then Acted(before, acts[|acts| - 1]) else before
  }

  /** Channels of different names, between the same users, seen by each of them as they are. */
  ghost predicate Hall(channels: seq<Channel>, users: set<User>)
    reads channels, users
  {
    && (forall i | 0 <= i < |channels| :: channels[i].users == users && channels[i].Valid())
    && (forall i, j | 0 <= i < j < |channels| :: channels[i] != channels[j] && channels[i].name != channels[j].name)
  }

  method Perform(channel: Channel, a: Act)
    requires channel.Valid() && (!a.Close? ==> a.user in channel.users)
    modifies channel`members, channel.users`outbox
    ensures channel.Valid() && channel.members == Acted(old(channel.members), a)
    ensures forall u | u in channel.users :: Adds(old(u.outbox), u.outbox, channel.name)
  {
    hide Replay, RosterOf, Adds;
    match a {
      case Enter(_, u) => channel.Insert(u);
      case Leave(_, u) => channel.Remove(u);
      case Close(_) => channel.Clear();
    }
  }

  /** In every run, on any number of channels, everybody's picture of every channel stays right. */
  method RunChannels(channels: seq<Channel>, ghost users: set<User>, acts: seq<Act>)
    requires Hall(channels, users)
    requires forall k | 0 <= k < |acts| :: acts[k].chan < |channels| && (!acts[k].Close? ==> acts[k].user in users)
    modifies channels, users
    ensures Hall(channels, users)
    ensures forall i | 0 <= i < |channels| ::
              channels[i].members == MembersAfter(old(channels[i].members), i, acts)
  {
    hide Channel.Valid, Adds, Acted;
    var k := 0;
    while k < |acts|
      invariant 0 <= k <= |acts| && Hall(channels, users)
      invariant forall i | 0 <= i < |channels| ::
                  channels[i].members == MembersAfter(old(channels[i].members), i, acts[..k])
    {
      ghost var now := acts[..k + 1];
      assert now[..k] == acts[..k] && now[k] == acts[k];
      label turn:
      var c := channels[acts[k].chan];
      Perform(c, acts[k]);
      forall i | 0 <= i < |channels| && i != acts[k].chan
        ensures channels[i].Valid()
      {
        channels[i].StillValid@turn(c.name);
      }
      k := k + 1;
    }
    assert acts[..k] == acts;
  }
}
