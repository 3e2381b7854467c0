/** Connections: how they come in from the accepting thread, and which of them are kept. */
module Servers {
  import opened Options

  class Client {
    const ip: int
    var dead: bool

    constructor (ip: int)
      ensures this.ip == ip && !dead
    {
      this.ip, dead := ip, false;
    }
  }

  ghost predicate NoRepeats(s: seq<Client>) {
    forall i, j | 0 <= i < j < |s| :: s[i] != s[j]
  }

  /** The clients that a new one from `ip` replaces. */
  function SameIp(s: seq<Client>, ip: int): set<Client> {
    set c | c in s && c.ip == ip
  }

  function Keep(s: seq<Client>, gone: set<Client>): seq<Client> {
    if s == [] then []
    else if s[0] in gone then Keep(s[1..], gone)
    else [s[0]] + Keep(s[1..], gone)
  }

  lemma {:induction false} KeepMembers(s: seq<Client>, gone: set<Client>)
    ensures forall c :: c in Keep(s, gone) <==> c in s && c !in gone
    ensures forall i | 0 <= i < |Keep(s, gone)| :: Keep(s, gone)[i] in s && Keep(s, gone)[i] !in gone
  {
    if s != [] { KeepMembers(s[1..], gone); }
  }

  lemma {:induction false} KeepAppend(s: seq<Client>, t: seq<Client>, gone: set<Client>)
    ensures Keep(s + t, gone) == Keep(s, gone) + Keep(t, gone)
  {
    if s == [] {
      assert s + t == t;
    } else {
      assert (s + t)[1..] == s[1..] + t;
      KeepAppend(s[1..], t, gone);
    }
  }

  lemma {:induction false} KeepTwice(s: seq<Client>, gone: set<Client>, more: set<Client>)
    ensures Keep(Keep(s, gone), more) == Keep(s, gone + more)
  {
    if s != [] { KeepTwice(s[1..], gone, more); }
  }

  lemma {:induction false} KeepAll(s: seq<Client>, gone: set<Client>)
    requires forall c | c in s :: c !in gone
    ensures Keep(s, gone) == s
  {
    if s != [] { KeepAll(s[1..], gone); }
  }

  lemma KeepWithout(s: seq<Client>, i: nat, gone: set<Client>)
    requires i < |s| && s[i] in gone
    ensures Keep(s[..i] + s[i + 1..], gone) == Keep(s, gone)
  {
    var before, after := s[..i], s[i + 1..];
    assert s == before + ([s[i]] + after);
    KeepAppend(before, [s[i]] + after, gone);
    KeepAppend(before, after, gone);
  }

  lemma NotYet(s: seq<Client>, t: seq<Client>, i: nat)
    requires NoRepeats(s + t) && i < |t|
    ensures forall k | i <= k < |t| :: t[k] !in s + t[..i]
  {
    var all, n := s + t, |s|;
    assert forall k | 0 <= k < |s + t[..i]| :: (s + t[..i])[k] == all[k];
    assert forall k | i <= k < |t| :: t[k] == all[n + k];
  }

  // ---------------------------------------------------------------- the two threads

  /** Where the main thread is: in `open`, between calls, or in `check_incoming`. */
  datatype Main = Closed | Locked | Spawned | Relocked | Idle | Taking(i: nat) | Taken

  /** Where the accepting thread is. */
  datatype Acceptor = Absent | Begun | Accepting | Hand(c: Client) | Entered(c: Client) | Pushed

  /** `locked` is the mutex of `incoming`; it does not know who locked it. The histories are of the
      clients accepted, moved into `clients`, and destroyed. */
  datatype State = State(
    main: Main, acceptor: Acceptor, locked: bool,
    incoming: seq<Client>, clients: seq<Client>, dead: set<Client>,
    accepted: seq<Client>, moved: seq<Client>, gone: set<Client>)

  const Initially := State(Closed, Absent, false, [], [], {}, [], [], {})

  datatype Event =
    | Lock | Spawn | Relock | Opened
    | Check | AddNext | ClearQueue | Release
    | Sweep(failed: set<Client>)
    | Begin | Accept(c: Client) | Enter | Push | Leave

  predicate ByMain(e: Event) {
    !e.Begin? && !e.Accept? && !e.Enter? && !e.Push? && !e.Leave?
  }

  /** One step of one thread; `None` if it cannot be taken now. */
  function Step(s: State, e: Event): Option<State> {
    match e
    case Lock => if s.main.Closed? && !s.locked then Some(s.(main := Locked, locked := true)) else None
    case Spawn => if s.main.Locked? then Some(s.(main := Spawned, acceptor := Begun)) else None
    case Relock => if s.main.Spawned? && !s.locked then Some(s.(main := Relocked, locked := true)) else None
    case Opened => if s.main.Relocked? then Some(s.(main := Idle, locked := false)) else None
    case Check => if s.main.Idle? && !s.locked then Some(s.(main := Taking(0), locked := true)) else None
    case AddNext =>
      if s.main.Taking? && s.main.i < |s.incoming| then
        var c := s.incoming[s.main.i];
        Some(s.(main := Taking(s.main.i + 1), dead := s.dead + SameIp(s.clients, c.ip),
             clients := s.clients + [c], moved := s.moved + [c]))
      else None
    case ClearQueue =>
      if s.main.Taking? && s.main.i >= |s.incoming| then Some(s.(main := Taken, incoming := [])) else None
    case Release => if s.main.Taken? then Some(s.(main := Idle, locked := false)) else None
    case Sweep(failed) =>
      if s.main.Idle? then
        var out := set c | c in s.clients && (c in s.dead || c in failed);
        Some(s.(clients := Keep(s.clients, out), gone := s.gone + out))
      else None
    case Begin => if s.acceptor.Begun? then Some(s.(acceptor := Accepting, locked := false)) else None
    case Accept(c) =>
      if s.acceptor.Accepting? && c !in s.accepted then
        Some(s.(acceptor := Hand(c), accepted := s.accepted + [c]))
      else None
    case Enter =>
      if s.acceptor.Hand? && !s.locked then Some(s.(acceptor := Entered(s.acceptor.c), locked := true)) else None
    case Push =>
      if s.acceptor.Entered? then Some(s.(acceptor := Pushed, incoming := s.incoming + [s.acceptor.c])) else None
    case Leave => if s.acceptor.Pushed? then Some(s.(acceptor := Accepting, locked := false)) else None
  }

  function RunAll(es: seq<Event>): Option<State> {
    if es == [] then Some(Initially)
    else
      match RunAll(es[..|es| - 1])
      case None => None
      case Some(s) => Step(s, es[|es| - 1])
  }

  /** Who may touch the queue: the lock of the parent passes to the child that it starts. */
  predicate MainHolds(s: State) {
    s.main.Locked? || s.main.Relocked? || s.main.Taking? || s.main.Taken? || (s.main.Spawned? && s.acceptor.Begun?)
  }

  predicate AcceptorHolds(s: State) {
    s.acceptor.Entered? || s.acceptor.Pushed?
  }

  function InHand(s: State): seq<Client> {
    if s.acceptor.Hand? || s.acceptor.Entered? then [s.acceptor.c] else []
  }

  /** The queue as far as it has not been moved into `clients`. */
  function Waiting(s: State): seq<Client> {
    if s.main.Taking? && s.main.i <= |s.incoming| then s.incoming[s.main.i..] else s.incoming
  }

  /** A later connection came from the same address. */
  ghost predicate Superseded(moved: seq<Client>, c: Client) {
    exists i, j | 0 <= i < j < |moved| :: moved[i] == c && moved[j].ip == c.ip
  }

  ghost predicate Synchronised(s: State) {
    && s.locked == (MainHolds(s) || AcceptorHolds(s))
    && !(MainHolds(s) && AcceptorHolds(s))
    && (s.acceptor.Absent? <==> s.main.Closed? || s.main.Locked?)
    && (s.acceptor.Begun? ==> s.main.Spawned?)
  }

  ghost predicate Conserved(s: State) {
    && NoRepeats(s.accepted)
    && s.accepted == s.moved + Waiting(s) + InHand(s)
    && s.clients == Keep(s.moved, s.gone)
    && (forall c | c in s.gone :: c in s.moved)
    && (s.main.Taking? ==>
          && s.main.i <= |s.incoming| && s.main.i <= |s.moved|
          && s.moved[|s.moved| - s.main.i..] == s.incoming[..s.main.i])
  }

  /** Of the clients, exactly those are marked dead that a later connection replaced. */
  ghost predicate NewestWins(s: State) {
    && (forall c | c in s.clients :: c in s.dead <==> Superseded(s.moved, c))
    && (forall c | c in s.dead :: c in s.moved)
  }

  ghost predicate Inv(s: State) {
    Synchronised(s) && Conserved(s) && NewestWins(s)
  }

  lemma StepSynchronised(s: State, e: Event)
    requires Synchronised(s) && Step(s, e).Some?
    ensures Synchronised(Step(s, e).value)
  {
  }

  lemma AddConserves(s: State)
    requires Conserved(s) && Step(s, AddNext).Some?
    ensures Conserved(Step(s, AddNext).value)
  {
    var t := Step(s, AddNext).value;
    var c := s.incoming[s.main.i];
    assert Waiting(s) == [c] + Waiting(t);
    var before := s.moved + Waiting(s);
    assert before == t.moved + Waiting(t);
    assert s.accepted[|s.moved|] == c;
    forall k | 0 <= k < |s.moved|
      ensures s.moved[k] != c
    {
      assert s.accepted[k] == s.moved[k];
    }
    KeepAppend(s.moved, [c], s.gone);
    KeepAll([c], s.gone);
  }

  lemma SweepConserves(s: State, failed: set<Client>)
    requires Conserved(s) && Step(s, Sweep(failed)).Some?
    ensures Conserved(Step(s, Sweep(failed)).value)
  {
    var out := set c | c in s.clients && (c in s.dead || c in failed);
    KeepTwice(s.moved, s.gone, out);
    KeepMembers(s.moved, s.gone);
  }

  lemma StepConserves(s: State, e: Event)
    requires Synchronised(s) && Conserved(s) && Step(s, e).Some?
    ensures Conserved(Step(s, e).value)
  {
    hide Keep, NoRepeats;
    var t := Step(s, e).value;
    match e {
      case AddNext => AddConserves(s);
      case Sweep(failed) => SweepConserves(s, failed);
      case Accept(c) =>
        assert s.accepted == s.moved + Waiting(s);
        NoRepeatsMore(s.accepted, c);
      case Push =>
        assert Waiting(t) == Waiting(s) + [s.acceptor.c];
        assert s.moved + Waiting(s) + [s.acceptor.c] == s.moved + Waiting(t);
      case _ =>
    }
  }

  lemma NoRepeatsMore(s: seq<Client>, c: Client)
    requires NoRepeats(s) && c !in s
    ensures NoRepeats(s + [c])
  {
  }

  lemma AddNewestWins(s: State)
    requires Conserved(s) && NewestWins(s) && Step(s, AddNext).Some?
    ensures NewestWins(Step(s, AddNext).value)
  {
    var t := Step(s, AddNext).value;
    var c := s.incoming[s.main.i];
    assert s.accepted[|s.moved|] == c;
    forall k | 0 <= k < |s.moved|
      ensures s.moved[k] != c
    {
      assert s.accepted[k] == s.moved[k];
    }
    KeepMembers(s.moved, s.gone);
    forall x | x in t.clients
      ensures x in t.dead <==> Superseded(t.moved, x)
    {
      if x != c {
        AlsoSuperseded(s.moved, c, x);
      } else {
        assert forall j | 0 <= j < |t.moved| && t.moved[j] == c :: j == |s.moved|;
      }
    }
  }

  lemma AlsoSuperseded(moved: seq<Client>, c: Client, x: Client)
    requires x in moved && x != c
    ensures Superseded(moved + [c], x) <==> Superseded(moved, x) || x.ip == c.ip
  {
    var after := moved + [c];
    if Superseded(moved, x) {
      var i, j :| 0 <= i < j < |moved| && moved[i] == x && moved[j].ip == x.ip;
      assert after[i] == x && after[j].ip == x.ip;
    }
    if x.ip == c.ip {
      var i :| 0 <= i < |moved| && moved[i] == x;
      assert after[i] == x && after[|moved|].ip == x.ip;
    }
    if Superseded(after, x) {
      var i, j :| 0 <= i < j < |after| && after[i] == x && after[j].ip == x.ip;
      assert moved[i] == x;
    }
  }

  lemma StepNewestWins(s: State, e: Event)
    requires Conserved(s) && NewestWins(s) && Step(s, e).Some?
    ensures NewestWins(Step(s, e).value)
  {
    match e {
      case AddNext => AddNewestWins(s);
      case Sweep(failed) =>
        KeepMembers(s.clients, set c | c in s.clients && (c in s.dead || c in failed));
      case _ =>
    }
  }

  /** The invariant holds in every run of the two threads. */
  lemma {:induction false} Invariant(es: seq<Event>)
    requires RunAll(es).Some?
    ensures Inv(RunAll(es).value)
  {
    if es != [] {
      var before, e := es[..|es| - 1], es[|es| - 1];
      Invariant(before);
      var s := RunAll(before).value;
      StepSynchronised(s, e);
      StepConserves(s, e);
      StepNewestWins(s, e);
    }
  }

  /** An accepted client is in exactly one place. */
  lemma OnePlace(es: seq<Event>, c: Client)
    requires RunAll(es).Some?
    ensures var s := RunAll(es).value;
            var places := [c in InHand(s), c in Waiting(s), c in s.clients, c in s.gone];
            (c in s.accepted <==> exists k :: 0 <= k < 4 && places[k])
            && forall k, l | 0 <= k < l < 4 :: !(places[k] && places[l])
  {
    Invariant(es);
    var s := RunAll(es).value;
    KeepMembers(s.moved, s.gone);
    var places := [c in InHand(s), c in Waiting(s), c in s.clients, c in s.gone];
    assert places[0] || places[1] || places[2] || places[3] <==> c in s.accepted;
    Disjoint(s.moved, Waiting(s), InHand(s), c);
  }

  /** A client stands in the queue and in the client list only while the main thread, with the
      lock, is moving the queue, and only if it has been moved already. */
  lemma InBothLists(es: seq<Event>, c: Client)
    requires RunAll(es).Some?
    ensures var s := RunAll(es).value;
            c in s.incoming && (c in s.clients || c in s.gone) ==>
              s.locked && s.main.Taking? && s.main.i <= |s.incoming| && c in s.incoming[..s.main.i]
  {
    Invariant(es);
    OnePlace(es, c);
    var s := RunAll(es).value;
    var places := [c in InHand(s), c in Waiting(s), c in s.clients, c in s.gone];
    assert c in s.clients ==> places[2] && !places[1];
    assert c in s.gone ==> places[3] && !places[1];
    if s.main.Taking? {
      assert s.incoming == s.incoming[..s.main.i] + Waiting(s);
    }
  }

  lemma Disjoint(a: seq<Client>, b: seq<Client>, d: seq<Client>, c: Client)
    requires NoRepeats(a + b + d)
    ensures !(c in a && c in b) && !(c in a && c in d) && !(c in b && c in d)
  {
    var s := a + b + d;
    assert forall i | 0 <= i < |a| :: s[i] == a[i];
    assert forall i | 0 <= i < |b| :: s[|a| + i] == b[i];
    assert forall i | 0 <= i < |d| :: s[|a| + |b| + i] == d[i];
  }

  /** Clients are moved in the order in which they were accepted, and kept in that order. */
  lemma ArrivalOrder(es: seq<Event>)
    requires RunAll(es).Some?
    ensures var s := RunAll(es).value;
            s.accepted == s.moved + Waiting(s) + InHand(s) && s.clients == Keep(s.moved, s.gone)
  {
    Invariant(es);
  }

  /** The queue changes only by the thread that has the lock, and only one has it. */
  lemma QueueIsGuarded(es: seq<Event>, e: Event)
    requires RunAll(es).Some? && Step(RunAll(es).value, e).Some?
    ensures var s := RunAll(es).value;
            (Step(s, e).value.incoming != s.incoming || e.AddNext? ==>
               s.locked && if ByMain(e) then MainHolds(s) && !AcceptorHolds(s) else AcceptorHolds(s) && !MainHolds(s))
  {
    hide Conserved, NewestWins;
    Invariant(es);
  }

  /** `open` returns only when the accepting thread has started. */
  lemma OpenWaits(es: seq<Event>)
    requires RunAll(es).Some?
    ensures var s := RunAll(es).value;
            s.main.Relocked? || s.main.Idle? || s.main.Taking? || s.main.Taken? ==>
              !s.acceptor.Absent? && !s.acceptor.Begun?
  {
    hide Conserved, NewestWins;
    Invariant(es);
  }

  /** Nobody waits for the lock for ever: whoever has it can go on, until it is free. */
  lemma LockIsReleased(es: seq<Event>)
    requires RunAll(es).Some? && RunAll(es).value.locked
    ensures var s := RunAll(es).value;
            exists e :: Step(s, e).Some? && Measure(Step(s, e).value) < Measure(s)
  {
    hide Conserved, NewestWins;
    Invariant(es);
    var s := RunAll(es).value;
    var e := if s.acceptor.Begun? then Begin
    else if s.acceptor.Entered? then Push
    else if s.acceptor.Pushed? then Leave
    else if s.main.Locked? then Spawn
    else if s.main.Relocked? then Opened
    else if s.main.Taken? then Release
    else if s.main.i < |s.incoming| then AddNext
    else ClearQueue;
    assert Step(s, e).Some? && Measure(Step(s, e).value) < Measure(s);
  }

  /** Nothing stands in the way of a thread but what the source waits for: in every run, a step is
      possible exactly where its thread has come to it, with the lock free if it takes the lock. */
  lemma MainCanStep(es: seq<Event>)
    requires RunAll(es).Some?
    ensures var s := RunAll(es).value;
            && (Step(s, Lock).Some? <==> s.main.Closed?)
            && (Step(s, Spawn).Some? <==> s.main.Locked?)
            && (Step(s, Relock).Some? <==> s.main.Spawned? && !s.locked)
            && (Step(s, Opened).Some? <==> s.main.Relocked?)
            && (Step(s, Check).Some? <==> s.main.Idle? && !s.locked)
            && (Step(s, AddNext).Some? <==> s.main.Taking? && Waiting(s) != [])
            && (Step(s, ClearQueue).Some? <==> s.main.Taking? && Waiting(s) == [])
            && (Step(s, Release).Some? <==> s.main.Taken?)
            && (forall failed :: Step(s, Sweep(failed)).Some? <==> s.main.Idle?)
  {
    Invariant(es);
    hide NewestWins, Keep, NoRepeats;
  }

  lemma AcceptorCanStep(es: seq<Event>)
    requires RunAll(es).Some?
    ensures var s := RunAll(es).value;
            && (Step(s, Begin).Some? <==> s.acceptor.Begun?)
            && (forall c :: Step(s, Accept(c)).Some? <==> s.acceptor.Accepting? && c !in s.accepted)
            && (Step(s, Enter).Some? <==> s.acceptor.Hand? && !s.locked)
            && (Step(s, Push).Some? <==> s.acceptor.Entered?)
            && (Step(s, Leave).Some? <==> s.acceptor.Pushed?)
  {
    hide Synchronised, Conserved, NewestWins;
  }

  lemma RunMore(es: seq<Event>, e: Event)
    requires RunAll(es).Some?
    ensures RunAll(es + [e]) == Step(RunAll(es).value, e)
  {
    assert (es + [e])[..|es|] == es;
  }

  /** How far the accepting thread is from waiting for a client again. */
  function AcceptorAhead(s: State): nat {
    match s.acceptor
    case Absent => 0
    case Begun => 1
    case Accepting => 0
    case Hand(_) => 3
    case Entered(_) => 2
    case Pushed => 1
  }

  /** How far the main thread is from being idle. */
  function MainAhead(s: State): nat {
    match s.main
    case Closed => 5
    case Locked => 4
    case Spawned => 3
    case Relocked => 2
    case Idle => 0
    case Taking(i) => if i < |s.incoming| then |s.incoming| - i + 2 else 2
    case Taken => 1
  }

  /** What brings the main thread nearer to being idle. */
  function TowardsIdle(s: State): Event {
    if s.main.Closed? then Lock
    else if s.main.Locked? then Spawn
    else if s.main.Relocked? then Opened
    else if s.main.Taken? then Release
    else if s.main.Taking? then (if s.main.i < |s.incoming| then AddNext else ClearQueue)
    else if s.acceptor.Begun? then Begin
    else if s.acceptor.Entered? then Push
    else if s.acceptor.Pushed? then Leave
    else Relock
  }

  lemma NearerToIdle(s: State)
    requires Synchronised(s) && !s.main.Idle?
    ensures Step(s, TowardsIdle(s)).Some?
    ensures var t := Step(s, TowardsIdle(s)).value;
            && t.accepted == s.accepted
            && (MainAhead(t) < MainAhead(s)
                || (MainAhead(t) == MainAhead(s) && AcceptorAhead(t) < AcceptorAhead(s)))
            && (Draining(s) ==> Draining(t) && t.acceptor == s.acceptor)
  {
  }

  /** The queue is being emptied, or has been. */
  predicate Draining(s: State) {
    s.main.Taking? || ((s.main.Taken? || s.main.Idle?) && s.incoming == [])
  }

  ghost predicate Settles(s: State, t: State) {
    && t.main.Idle? && t.accepted == s.accepted
    && (Draining(s) ==> t.incoming == [] && t.acceptor == s.acceptor)
  }

  lemma AppendFirst(es: seq<Event>, e: Event, rest: seq<Event>)
    ensures es + [e] + rest == es + ([e] + rest)
  {
  }

  /** From every state the main thread can come to be idle, so `open` can always return; and if it
      was taking the queue, the queue is empty then. */
  lemma {:induction false} BecomesIdle(es: seq<Event>) returns (more: seq<Event>)
    requires RunAll(es).Some?
    ensures RunAll(es + more).Some? && Settles(RunAll(es).value, RunAll(es + more).value)
    decreases MainAhead(RunAll(es).value), AcceptorAhead(RunAll(es).value)
  {
    Invariant(es);
    var s := RunAll(es).value;
    hide Conserved, NewestWins, Synchronised, Step, RunAll, TowardsIdle, MainAhead, AcceptorAhead;
    if s.main.Idle? {
      more := [];
      assert es + more == es;
    } else {
      var e := TowardsIdle(s);
      NearerToIdle(s);
      RunMore(es, e);
      var rest := BecomesIdle(es + [e]);
      more := [e] + rest;
      AppendFirst(es, e, rest);
    }
  }

  lemma OpenCanReturn()
    ensures exists es :: RunAll(es).Some? && RunAll(es).value.main.Idle?
  {
    var es := BecomesIdle([]);
    assert [] + es == es;
  }

  /** From every state where the main thread is idle, the accepting thread can come to wait again. */
  lemma {:induction false} HandsOver(es: seq<Event>) returns (more: seq<Event>)
    requires RunAll(es).Some? && RunAll(es).value.main.Idle?
    ensures RunAll(es + more).Some?
    ensures var s, t := RunAll(es).value, RunAll(es + more).value;
            t.main.Idle? && t.acceptor.Accepting? && t.accepted == s.accepted
    decreases AcceptorAhead(RunAll(es).value)
  {
    Invariant(es);
    var s := RunAll(es).value;
    hide Conserved, NewestWins, RunAll;
    if s.acceptor.Accepting? {
      more := [];
      assert es + more == es;
    } else {
      var e := if s.acceptor.Entered? then Push else if s.acceptor.Pushed? then Leave else Enter;
      RunMore(es, e);
      hide Synchronised;
      var rest := HandsOver(es + [e]);
      more := [e] + rest;
      AppendFirst(es, e, rest);
    }
  }

  /** Every accepted client can be moved on: from every state where it is on its way there is a
      continuation after which it is in the client list or destroyed. */
  lemma AcceptedMovesOn(es: seq<Event>, c: Client) returns (more: seq<Event>)
    requires RunAll(es).Some? && c in RunAll(es).value.accepted
    ensures RunAll(es + more).Some?
    ensures c in RunAll(es + more).value.clients || c in RunAll(es + more).value.gone
  {
    hide RunAll, Conserved, NewestWins;
    var m1 := BecomesIdle(es);
    var m2 := HandsOver(es + m1);
    var es2 := es + m1 + m2;
    Invariant(es2);
    RunMore(es2, Check);
    hide Synchronised;
    var m3 := BecomesIdle(es2 + [Check]);
    more := m1 + m2 + [Check] + m3;
    assert es + more == es2 + [Check] + m3;
    TakenWhenIdle(es + more, c);
  }

  lemma TakenWhenIdle(es: seq<Event>, c: Client)
    requires RunAll(es).Some? && c in RunAll(es).value.accepted
    requires InHand(RunAll(es).value) == [] && Waiting(RunAll(es).value) == []
    ensures c in RunAll(es).value.clients || c in RunAll(es).value.gone
  {
    Invariant(es);
    KeepMembers(RunAll(es).value.moved, RunAll(es).value.gone);
  }

  /** How many steps the lock's holder has to take, at most, before it lets go. */
  function Measure(s: State): nat {
    if !s.locked then 0
    else if s.acceptor.Begun? then 1
    else if s.acceptor.Entered? then 2
    else if s.acceptor.Pushed? then 1
    else
      match s.main
      case Locked => 2
      case Relocked => 1
      case Taken => 1
      case Taking(i) => if i < |s.incoming| then |s.incoming| - i + 2 else 2
      case _ => 0
  }

  /** No two clients from one address are both alive. */
  lemma LiveAreDistinct(es: seq<Event>, i: nat, j: nat)
    requires RunAll(es).Some? && i < j < |RunAll(es).value.clients|
    ensures var s := RunAll(es).value;
            s.clients[i].ip == s.clients[j].ip ==> s.clients[i] in s.dead
  {
    Invariant(es);
    var s := RunAll(es).value;
    KeepOrder(s.moved, s.gone, i, j);
  }

  lemma {:induction false} KeepOrder(s: seq<Client>, gone: set<Client>, i: nat, j: nat)
    requires i < j < |Keep(s, gone)|
    ensures exists k, l :: 0 <= k < l < |s| && s[k] == Keep(s, gone)[i] && s[l] == Keep(s, gone)[j]
  {
    var rest := s[1..];
    if s[0] in gone {
      KeepOrder(rest, gone, i, j);
      var k, l :| 0 <= k < l < |rest| && rest[k] == Keep(rest, gone)[i] && rest[l] == Keep(rest, gone)[j];
      assert s[k + 1] == rest[k] && s[l + 1] == rest[l];
    } else if i > 0 {
      KeepOrder(rest, gone, i - 1, j - 1);
      var k, l :| 0 <= k < l < |rest| && rest[k] == Keep(rest, gone)[i - 1] && rest[l] == Keep(rest, gone)[j - 1];
      assert s[k + 1] == rest[k] && s[l + 1] == rest[l];
    } else {
      KeepMembers(rest, gone);
      var l :| 0 <= l < |rest| && rest[l] == Keep(rest, gone)[j - 1];
      assert s[0] == Keep(s, gone)[0] && s[l + 1] == rest[l];
    }
  }

  /** After the clients have been checked there is one for each address, the last that came, and
      what was there keeps its order. */
  lemma AfterSweep(es: seq<Event>, failed: set<Client>)
    requires RunAll(es + [Sweep(failed)]).Some?
    ensures var s, t := RunAll(es).value, RunAll(es + [Sweep(failed)]).value;
            RunAll(es).Some?
            && t.clients == Keep(s.clients, SupersededOf(s) + failed)
            && (forall c | c in t.clients :: c !in t.dead && !Superseded(t.moved, c))
            && (forall i, j | 0 <= i < j < |t.clients| :: t.clients[i].ip != t.clients[j].ip)
  {
    assert (es + [Sweep(failed)])[..|es|] == es;
    Invariant(es);
    Invariant(es + [Sweep(failed)]);
    var s, t := RunAll(es).value, RunAll(es + [Sweep(failed)]).value;
    var out := set c | c in s.clients && (c in s.dead || c in failed);
    KeepMembers(s.clients, out);
    KeepSame(s.clients, out, SupersededOf(s) + failed);
    forall i, j | 0 <= i < j < |t.clients|
      ensures t.clients[i].ip != t.clients[j].ip
    {
      LiveAreDistinct(es + [Sweep(failed)], i, j);
    }
  }

  ghost function SupersededOf(s: State): set<Client> {
    set c | c in s.clients && Superseded(s.moved, c)
  }

  lemma {:induction false} KeepSame(s: seq<Client>, a: set<Client>, b: set<Client>)
    requires forall c | c in s :: c in a <==> c in b
    ensures Keep(s, a) == Keep(s, b)
  {
    if s != [] { KeepSame(s[1..], a, b); }
  }

  // ---------------------------------------------------------------- the main thread's lists

  /** Who is dead when all of `queue` has been added. */
  function DeadAfter(clients: seq<Client>, dead: set<Client>, queue: seq<Client>): set<Client>
    decreases |queue|
  {
    if queue == [] then dead
    else DeadAfter(clients + [queue[0]], dead + SameIp(clients, queue[0].ip), queue[1..])
  }

  function AddSteps(s: State, n: nat): State
    decreases n
  {
    if n == 0 then s
    else
      match Step(s, AddNext)
      case None => s
      case Some(t) => AddSteps(t, n - 1)
  }

  lemma TakeOne(s: State)
    requires s.main.Taking? && s.main.i < |s.incoming|
    ensures Step(s, AddNext).Some?
    ensures var c, t := s.incoming[s.main.i], Step(s, AddNext).value;
            Waiting(s) == [c] + Waiting(t)
            && t == s.(main := Taking(s.main.i + 1), dead := s.dead + SameIp(s.clients, c.ip),
                    clients := s.clients + [c], moved := s.moved + [c])
  {
  }

  /** `t` is `s` after all of `w`, the rest of the queue, was moved into `clients`. */
  ghost predicate TakenAll(s: State, t: State, w: seq<Client>) {
    t == s.(main := Taking(|s.incoming|), clients := s.clients + w, moved := s.moved + w,
    dead := DeadAfter(s.clients, s.dead, w))
  }

  lemma TakenMore(s: State, m: State, t: State, c: Client, w: seq<Client>)
    requires m == s.(main := m.main, dead := s.dead + SameIp(s.clients, c.ip),
                  clients := s.clients + [c], moved := s.moved + [c])
    requires TakenAll(m, t, w)
    ensures TakenAll(s, t, [c] + w)
  {
    hide SameIp;
    assert ([c] + w)[1..] == w;
    assert s.clients + ([c] + w) == m.clients + w && s.moved + ([c] + w) == m.moved + w;
  }

  lemma TakenNone(s: State)
    requires s.main == Taking(|s.incoming|)
    ensures TakenAll(s, s, [])
  {
    assert s.clients + [] == s.clients && s.moved + [] == s.moved;
  }

  /** Taking the whole queue in one go is taking it step by step. */
  lemma {:induction false} TakenInSteps(s: State)
    requires s.main.Taking? && s.main.i <= |s.incoming|
    ensures TakenAll(s, AddSteps(s, |s.incoming| - s.main.i), Waiting(s))
    decreases |s.incoming| - s.main.i
  {
    hide SameIp, TakenAll, DeadAfter;
    if s.main.i == |s.incoming| {
      assert Waiting(s) == [];
      TakenNone(s);
    } else {
      TakeOne(s);
      var t := Step(s, AddNext).value;
      TakenInSteps(t);
      TakenMore(s, t, AddSteps(t, |t.incoming| - t.main.i), s.incoming[s.main.i], Waiting(t));
    }
  }

  /** What the main thread does to its lists, between taking the lock and letting it go. */
  class Server {
    var incoming: seq<Client>
    var clients: seq<Client>

    constructor ()
      ensures incoming == [] && clients == []
    {
      incoming, clients := [], [];
    }

    ghost function Dead(): set<Client>
      reads this, clients
    {
      set c | c in clients && c.dead
    }

    /** `add_connection` */
    method AddConnection(lc: Client)
      requires lc !in clients && !lc.dead
      modifies this`clients, clients
      ensures clients == old(clients) + [lc] && Dead() == old(Dead()) + SameIp(old(clients), lc.ip)
    {
      var i := 0;
      while i < |clients|
        invariant 0 <= i <= |clients| == |old(clients)| && clients == old(clients)
        invariant Dead() == old(Dead()) + SameIp(clients[..i], lc.ip)
      {
        assert clients[..i + 1] == clients[..i] + [clients[i]];
        ghost var before, marked := Dead(), if clients[i].ip == lc.ip then {clients[i]} else {};
        assert SameIp(clients[..i + 1], lc.ip) == SameIp(clients[..i], lc.ip) + marked;
        if clients[i].ip == lc.ip {
          clients[i].dead := true;
        }
        assert Dead() == before + marked;
        i := i + 1;
      }
      assert clients[..i] == clients;
      clients := clients + [lc];
    }

    /** `check_incoming`, within the lock */
    method CheckIncoming()
      requires NoRepeats(clients + incoming) && forall c | c in incoming :: !c.dead
      modifies this, clients, incoming
      ensures incoming == [] && clients == old(clients) + old(incoming)
      ensures Dead() == DeadAfter(old(clients), old(Dead()), old(incoming))
    {
      hide SameIp, NoRepeats;
      var i := 0;
      assert incoming[0..] == incoming;
      while i < |incoming|
        invariant 0 <= i <= |incoming| && incoming == old(incoming)
        invariant clients == old(clients) + incoming[..i]
        invariant forall k | i <= k < |incoming| :: !incoming[k].dead
        invariant DeadAfter(clients, Dead(), incoming[i..]) == DeadAfter(old(clients), old(Dead()), incoming)
      {
        ghost var rest := incoming[i..];
        assert rest[0] == incoming[i] && rest[1..] == incoming[i + 1..];
        NotYet(old(clients), incoming, i);
        AddConnection(incoming[i]);
        i := i + 1;
      }
      assert incoming[i..] == [] && incoming[..i] == incoming;
      incoming := [];
    }

    /** `check_clients`, the sockets failing as they please */
    method CheckClients(fails: set<Client>)
      modifies this`clients
      ensures clients == Keep(old(clients), old(Dead()) + fails)
    {
      hide Keep;
      var i := 0;
      ghost var gone := Dead() + fails;
      while i < |clients|
        invariant 0 <= i <= |clients| && forall c | c in clients[..i] :: c !in gone
        invariant forall c | c in clients :: c in old(clients)
        invariant Keep(clients, gone) == Keep(old(clients), gone)
        decreases |clients| - i
      {
        var lc := clients[i];
        assert lc in clients;
        if lc.dead || lc in fails {
          KeepWithout(clients, i, gone);
          clients := clients[..i] + clients[i + 1..];
        } else {
          i := i + 1;
        }
      }
      KeepAll(clients, gone);
    }
  }
}