/** Who wants to know about whom: a registry with shared keys, and every user's own list. */
module Notifying {
  import opened Spelling

  /** A name allocated for the registry. */
  class Key {
    const text: string

    constructor (text: string)
      ensures this.text == text
    {
      this.text := text;
    }

    /** Where the multimap keeps it: names that differ in case only are the same to it. */
    function Slot(): string {
      Fold(text)
    }
  }

  datatype Message =
    | ComputerOnline(name: string, linespeed: nat)
    | ComputerOffline(name: string)
    | NotifyClear(count: nat)

  class User {
    const name: string
    const linespeed: nat
    var notifies: seq<Key>
    var outbox: seq<Message>

    constructor (name: string, linespeed: nat)
      ensures this.name == name && this.linespeed == linespeed && notifies == [] && outbox == []
    {
      this.name, this.linespeed, notifies, outbox := name, linespeed, [], [];
    }

    method Write(m: Message)
      modifies this`outbox
      ensures outbox == old(outbox) + [m]
    {
      outbox := outbox + [m];
    }
  }

  datatype Status = ComingOnline | GoingOffline

  datatype Entry = Entry(key: Key, user: User)

  /** The multimap: the entries under each folded name, in the order in which they were inserted. */
  type Ranges = map<string, seq<Entry>>

  function RangeOf(r: Ranges, slot: string): seq<Entry> {
    if slot in r then r[slot] else []
  }

  ghost predicate Among(range: seq<Entry>, u: User) {
    exists i :: 0 <= i < |range| && range[i].user == u
  }

  ghost predicate Entered(r: Ranges, slot: string, u: User)
    ensures Entered(r, slot, u) ==> slot in r
  {
    Among(RangeOf(r, slot), u)
  }

  ghost predicate Distinct(range: seq<Entry>) {
    forall i, j | 0 <= i < j < |range| :: range[i].user != range[j].user
  }

  /** All entries in a slot share one key, and nobody is there twice. */
  ghost predicate Shared(range: seq<Entry>, slot: string) {
    && range != []
    && (forall i | 0 <= i < |range| :: range[i].key == range[0].key && range[i].key.Slot() == slot)
    && (forall i, j | 0 <= i < j < |range| :: range[i].user != range[j].user)
  }

  ghost predicate AllShared(r: Ranges) {
    forall n | n in r :: r[n] != [] && Shared(r[n], n)
  }

  function LiveKeys(r: Ranges): set<Key>
    requires AllShared(r)
  {
    set n | n in r :: r[n][0].key
  }

  ghost predicate NoneTwice(list: seq<Key>) {
    forall i, j | 0 <= i < j < |list| :: list[i] != list[j]
  }

  ghost predicate OnlyKeys(r: Ranges, u: User, list: seq<Key>)
    requires AllShared(r)
  {
    forall i | 0 <= i < |list| :: Entered(r, list[i].Slot(), u) && r[list[i].Slot()][0].key == list[i]
  }

  ghost predicate AllKeys(r: Ranges, u: User, list: seq<Key>)
    requires AllShared(r)
  {
    forall n | n in r && Entered(r, n, u) :: r[n][0].key in list
  }

  /** A user's list names, once each, the keys under which the user is registered. */
  ghost predicate Listed(r: Ranges, u: User, list: seq<Key>)
    requires AllShared(r)
  {
    NoneTwice(list) && OnlyKeys(r, u, list) && AllKeys(r, u, list)
  }

  function WithEntry(r: Ranges, slot: string, e: Entry): Ranges {
    r[slot := RangeOf(r, slot) + [e]]
  }

  /** Without the entries of `u`, and without the slot if nobody is left. */
  function WithoutUser(r: Ranges, slot: string, u: User): Ranges {
    var range := Others(RangeOf(r, slot), u);
    if range == [] then r - {slot} else r[slot := range]
  }

  function Others(range: seq<Entry>, u: User): seq<Entry> {
    if range == [] then []
    else (if range[0].user == u then [] else [range[0]]) + Others(range[1..], u)
  }

  lemma WithEntryShared(r: Ranges, slot: string, e: Entry)
    requires AllShared(r) && !Entered(r, slot, e.user) && e.key.Slot() == slot
    requires slot in r ==> r[slot][0].key == e.key
    ensures AllShared(WithEntry(r, slot, e)) && WithEntry(r, slot, e)[slot][0].key == e.key
    ensures forall n | n in r :: WithEntry(r, slot, e)[n][0].key == r[n][0].key
    ensures LiveKeys(WithEntry(r, slot, e)) == LiveKeys(r) + {e.key}
  {
    var after := WithEntry(r, slot, e);
    assert forall n | n in r :: after[n][0] == if n == slot then r[slot][0] else r[n][0];
    assert after[slot][0].key == e.key;
  }

  lemma WithEntryEnters(r: Ranges, slot: string, e: Entry, n: string, u: User)
    ensures Entered(WithEntry(r, slot, e), n, u) <==> Entered(r, n, u) || (n == slot && u == e.user)
  {
    var after := WithEntry(r, slot, e);
    if n == slot {
      var before, now := RangeOf(r, slot), after[slot];
      assert now[|before|] == e;
      assert forall i | 0 <= i < |before| :: now[i] == before[i];
    }
  }

  lemma WithEntryListed(r: Ranges, slot: string, e: Entry, u: User, list: seq<Key>)
    requires AllShared(r) && !Entered(r, slot, e.user) && e.key.Slot() == slot
    requires slot in r ==> r[slot][0].key == e.key
    requires Listed(r, u, list)
    ensures AllShared(WithEntry(r, slot, e))
    ensures Listed(WithEntry(r, slot, e), u, if u == e.user then [e.key] + list else list)
  {
    hide Among;
    var after := WithEntry(r, slot, e);
    WithEntryShared(r, slot, e);
    forall n
      ensures Entered(after, n, u) <==> Entered(r, n, u) || (n == slot && u == e.user)
    {
      WithEntryEnters(r, slot, e, n, u);
    }
    assert forall n | n in r :: n in after;
    if u == e.user {
      hide Entered, Shared, WithEntry;
    } else {
      hide Listed;
      StillListed(r, after, u, list);
    }
  }

  lemma {:induction false} OthersAre(range: seq<Entry>, u: User)
    ensures forall i | 0 <= i < |Others(range, u)| :: Others(range, u)[i] in range && Others(range, u)[i].user != u
    ensures forall i | 0 <= i < |range| && range[i].user != u :: range[i] in Others(range, u)
    ensures (forall i | 0 <= i < |range| :: range[i].user != u) ==> Others(range, u) == range
  {
    if range != [] { OthersAre(range[1..], u); }
  }

  lemma {:induction false} OthersDistinct(range: seq<Entry>, u: User)
    requires Distinct(range)
    ensures Distinct(Others(range, u))
  {
    if range != [] {
      var rest := range[1..];
      assert Distinct(rest);
      OthersDistinct(rest, u);
      OthersAre(rest, u);
      var o := Others(rest, u);
      forall j | 0 <= j < |o|
        ensures o[j].user != range[0].user
      {
        assert o[j] in rest;
      }
    }
  }

  lemma OthersShared(range: seq<Entry>, slot: string, u: User)
    requires Shared(range, slot)
    ensures Others(range, u) != [] ==> Shared(Others(range, u), slot) && Others(range, u)[0].key == range[0].key
  {
    OthersAre(range, u);
    assert Distinct(range);
    OthersDistinct(range, u);
    var o := Others(range, u);
    forall i | 0 <= i < |o|
      ensures o[i].key == range[0].key && o[i].key.Slot() == slot
    {
      assert o[i] in range;
    }
  }

  lemma WithoutUserShared(r: Ranges, slot: string, u: User)
    requires AllShared(r)
    ensures AllShared(WithoutUser(r, slot, u))
    ensures forall n | n in WithoutUser(r, slot, u) :: n in r && WithoutUser(r, slot, u)[n][0].key == r[n][0].key
    ensures LiveKeys(WithoutUser(r, slot, u))
         == if slot in r && slot !in WithoutUser(r, slot, u) then LiveKeys(r) - {r[slot][0].key} else LiveKeys(r)
  {
    OthersAre(RangeOf(r, slot), u);
    hide Others;
    if slot in r {
      OthersShared(r[slot], slot, u);
    }
    var after := WithoutUser(r, slot, u);
    assert forall n | n in r && n != slot :: n in after && after[n] == r[n];
  }

  lemma OthersAmong(range: seq<Entry>, u: User, x: User)
    ensures Among(Others(range, u), x) <==> Among(range, x) && x != u
  {
    OthersAre(range, u);
    var o := Others(range, u);
    if i :| 0 <= i < |range| && range[i].user == x && x != u {
      assert range[i] in o;
    }
    if i :| 0 <= i < |o| && o[i].user == x {
      assert o[i] in range;
    }
  }

  lemma WithoutUserEnters(r: Ranges, slot: string, u: User, n: string, x: User)
    ensures Entered(WithoutUser(r, slot, u), n, x) <==> Entered(r, n, x) && !(n == slot && x == u)
  {
    hide Among;
    OthersAmong(RangeOf(r, slot), u, x);
    assert n == slot ==> RangeOf(WithoutUser(r, slot, u), n) == Others(RangeOf(r, slot), u);
    assert n != slot ==> RangeOf(WithoutUser(r, slot, u), n) == RangeOf(r, n);
  }

  function Dropped(list: seq<Key>, k: Key): seq<Key> {
    if list == [] then [] else if list[0] == k then list[1..] else [list[0]] + Dropped(list[1..], k)
  }

  lemma {:induction false} DroppedIs(list: seq<Key>, k: Key)
    requires NoneTwice(list)
    ensures forall i | 0 <= i < |Dropped(list, k)| :: Dropped(list, k)[i] in list && Dropped(list, k)[i] != k
    ensures forall i | 0 <= i < |list| && list[i] != k :: list[i] in Dropped(list, k)
    ensures NoneTwice(Dropped(list, k))
  {
    if list != [] {
      DroppedIs(list[1..], k);
      if list[0] == k {
        assert forall x | x in list[1..] :: x != k;
      } else {
        assert list[0] !in list[1..];
        assert list[0] !in Dropped(list[1..], k);
      }
    }
  }

  lemma WithoutUserListed(r: Ranges, slot: string, u: User, x: User, list: seq<Key>)
    requires AllShared(r) && Listed(r, x, list) && slot in r
    ensures AllShared(WithoutUser(r, slot, u))
    ensures Listed(WithoutUser(r, slot, u), x, if x == u then Dropped(list, r[slot][0].key) else list)
  {
    hide Among, Listed, Dropped;
    var after, k := WithoutUser(r, slot, u), r[slot][0].key;
    WithoutUserShared(r, slot, u);
    forall n
      ensures Entered(after, n, x) <==> Entered(r, n, x) && !(n == slot && x == u)
    {
      WithoutUserEnters(r, slot, u, n, x);
    }
    assert k.Slot() == slot;
    if x == u {
      DropListed(r, after, x, list, k);
    } else {
      StillListed(r, after, x, list);
    }
  }

  lemma StillListed(r: Ranges, after: Ranges, u: User, list: seq<Key>)
    requires AllShared(r) && AllShared(after) && Listed(r, u, list)
    requires forall n | n in r && n in after :: after[n][0].key == r[n][0].key
    requires forall n :: Entered(after, n, u) <==> Entered(r, n, u)
    ensures Listed(after, u, list)
  {
    hide Among, Shared, Entered;
  }

  lemma DropListed(r: Ranges, after: Ranges, u: User, list: seq<Key>, k: Key)
    requires AllShared(r) && AllShared(after)
    requires forall n | n in after :: n in r && after[n][0].key == r[n][0].key
    requires forall n :: Entered(after, n, u) <==> Entered(r, n, u) && n != k.Slot()
    requires Listed(r, u, list) && k.Slot() in r && r[k.Slot()][0].key == k
    ensures Listed(after, u, Dropped(list, k))
  {
    DroppedIs(list, k);
    DropOnly(r, after, u, list, k);
    DropAll(r, after, u, list, k);
  }

  lemma DropOnly(r: Ranges, after: Ranges, u: User, list: seq<Key>, k: Key)
    requires AllShared(r) && AllShared(after)
    requires forall n | n in after :: n in r && after[n][0].key == r[n][0].key
    requires forall n :: Entered(after, n, u) <==> Entered(r, n, u) && n != k.Slot()
    requires NoneTwice(list) && OnlyKeys(r, u, list) && k.Slot() in r && r[k.Slot()][0].key == k
    ensures OnlyKeys(after, u, Dropped(list, k))
  {
    DroppedIs(list, k);
    var list' := Dropped(list, k);
    hide Dropped, Among, Entered, Shared, NoneTwice;
    forall i | 0 <= i < |list'|
      ensures Entered(after, list'[i].Slot(), u) && after[list'[i].Slot()][0].key == list'[i]
    {
      assert list'[i] in list;
    }
  }

  lemma DropAll(r: Ranges, after: Ranges, u: User, list: seq<Key>, k: Key)
    requires AllShared(r) && AllShared(after)
    requires forall n | n in after :: n in r && after[n][0].key == r[n][0].key
    requires forall n :: Entered(after, n, u) <==> Entered(r, n, u) && n != k.Slot()
    requires NoneTwice(list) && AllKeys(r, u, list)
    ensures AllKeys(after, u, Dropped(list, k))
  {
    hide Dropped, Among, Entered, NoneTwice;
    forall n | n in after && Entered(after, n, u)
      ensures after[n][0].key in Dropped(list, k)
    {
      assert r[n][0].key.Slot() == n;
      DroppedHas(list, k, r[n][0].key);
    }
  }

  lemma DroppedHas(list: seq<Key>, k: Key, x: Key)
    requires NoneTwice(list) && x in list && x != k
    ensures x in Dropped(list, k)
  {
    DroppedIs(list, k);
    var i :| 0 <= i < |list| && list[i] == x;
  }

  ghost predicate Within(r: Ranges, users: set<User>) {
    forall n, i | n in r && 0 <= i < |r[n]| :: r[n][i].user in users
  }

  lemma WithEntryWithin(r: Ranges, slot: string, e: Entry, users: set<User>)
    requires Within(r, users) && e.user in users
    ensures Within(WithEntry(r, slot, e), users)
  {
  }

  lemma WithoutUserWithin(r: Ranges, slot: string, u: User, users: set<User>)
    requires Within(r, users)
    ensures Within(WithoutUser(r, slot, u), users)
  {
    var range := RangeOf(r, slot);
    OthersAre(range, u);
    var o := Others(range, u);
    forall i | 0 <= i < |o|
      ensures o[i].user in users
    {
      assert o[i] in range;
    }
  }

  lemma NobodyToForget(r: Ranges, slot: string, u: User)
    requires AllShared(r) && !Entered(r, slot, u)
    ensures WithoutUser(r, slot, u) == r
  {
    OthersAre(RangeOf(r, slot), u);
  }

  /** `u` wants to know about `name`, however it is written. */
  ghost predicate Registered(r: Ranges, name: string, u: User) {
    Entered(r, Fold(name), u)
  }

  /** An entry more registers just that user for just that name, in every spelling. */
  lemma WithEntryRegisters(r: Ranges, name: string, e: Entry, n: string, u: User)
    ensures Registered(WithEntry(r, Fold(name), e), n, u)
       <==> Registered(r, n, u) || (SameName(n, name) && u == e.user)
  {
    FoldSame(n, name);
    WithEntryEnters(r, Fold(name), e, Fold(n), u);
  }

  /** An entry less forgets just that user for just that name, in every spelling. */
  lemma WithoutUserRegisters(r: Ranges, name: string, u: User, n: string, x: User)
    ensures Registered(WithoutUser(r, Fold(name), u), n, x)
       <==> Registered(r, n, x) && !(SameName(n, name) && x == u)
  {
    FoldSame(n, name);
    WithoutUserEnters(r, Fold(name), u, Fold(n), x);
  }

  class NotifyManager {
    var ranges: Ranges
    /** Keys that have been allocated and not freed */
    ghost var live: set<Key>
    ghost const users: set<User>

    /** The registry and the lists agree, and just the keys in use are allocated. */
    ghost predicate Valid()
      reads this, users
    {
      && AllShared(ranges) && live == LiveKeys(ranges)
      && (forall u | u in users :: Listed(ranges, u, u.notifies))
      && Within(ranges, users)
    }

    /** A key is allocated for exactly the names that somebody wants to know about, one for each. */
    lemma KeysInUse(n: string)
      requires Valid()
      ensures (exists k :: k in live && SameName(k.text, n)) <==> exists u :: Registered(ranges, n, u)
      ensures forall k, l | k in live && l in live && SameName(k.text, l.text) :: k == l
    {
      var s := Fold(n);
      forall k: Key
        ensures SameName(k.text, n) <==> k.Slot() == s
      {
        FoldSame(k.text, n);
      }
      forall k: Key, l: Key
        ensures SameName(k.text, l.text) <==> k.Slot() == l.Slot()
      {
        FoldSame(k.text, l.text);
      }
      hide Fold, SameName;
      if k :| k in live && k.Slot() == s {
        assert ranges[s][0].key == k;
        assert Entered(ranges, s, ranges[s][0].user);
        assert Registered(ranges, n, ranges[s][0].user);
      }
      if u :| Registered(ranges, n, u) {
        assert ranges[s][0].key in live && ranges[s][0].key.Slot() == s;
      }
    }

    /** A user is registered for a name exactly if it is in the user's list, in whatever spelling. */
    lemma RegisteredMeans(n: string, u: User)
      requires Valid() && u in users
      ensures Registered(ranges, n, u) <==> exists k :: k in u.notifies && SameName(k.text, n)
    {
      var s := Fold(n);
      forall k | k in u.notifies
        ensures SameName(k.text, n) <==> k.Slot() == s
      {
        FoldSame(k.text, n);
      }
      assert Listed(ranges, u, u.notifies);
      hide Fold, SameName, Among;
      if Entered(ranges, s, u) {
        assert ranges[s][0].key in u.notifies && ranges[s][0].key.Slot() == s;
      }
      if k :| k in u.notifies && SameName(k.text, n) {
        var i :| 0 <= i < |u.notifies| && u.notifies[i] == k;
        assert Entered(ranges, u.notifies[i].Slot(), u);
      }
    }

    constructor (ghost users: set<User>)
      requires forall u | u in users :: u.notifies == []
      ensures Valid() && ranges == map[] && this.users == users
    {
      ranges, live, this.users := map[], {}, users;
    }

    method Add(name: string, requester: User) returns (added: bool)
      requires Valid() && requester in users
      modifies this, requester`notifies
      ensures Valid() && added == !old(Registered(ranges, name, requester))
      ensures !added ==> ranges == old(ranges) && requester.notifies == old(requester.notifies)
      ensures added ==> requester.notifies != [] && requester.notifies[1..] == old(requester.notifies)
      ensures added ==> ranges == WithEntry(old(ranges), Fold(name), Entry(requester.notifies[0], requester))
      ensures added && Fold(name) in old(ranges) ==> requester.notifies[0] == old(ranges)[Fold(name)][0].key
      ensures added && Fold(name) !in old(ranges) ==> fresh(requester.notifies[0]) && requester.notifies[0].text == name
    {
      hide Listed, LiveKeys, Within;
      var slot := Fold(name);
      var p := RangeOf(ranges, slot);
      assert p != [] ==> p[0].key.Slot() == slot;
      hide Fold, Shared;
      var newkey;
      if p == [] {
        newkey := new Key(name);
      } else {
        newkey := p[0].key;
        var i := 0;
        while i < |p|
          invariant 0 <= i <= |p| && forall j | 0 <= j < i :: p[j].user != requester
        {
          if p[i].user == requester {
            return false;
          }
          i := i + 1;
        }
      }
      Enter(slot, Entry(newkey, requester));
      return true;
    }

    method Enter(slot: string, e: Entry)
      requires Valid() && e.user in users && !Entered(ranges, slot, e.user) && e.key.Slot() == slot
      requires slot in ranges ==> ranges[slot][0].key == e.key
      modifies this, e.user`notifies
      ensures Valid() && ranges == WithEntry(old(ranges), slot, e)
      ensures e.user.notifies == [e.key] + old(e.user.notifies)
    {
      hide Listed, Entered, Shared, Within, LiveKeys;
      ghost var after := WithEntry(ranges, slot, e);
      WithEntryShared(ranges, slot, e);
      WithEntryWithin(ranges, slot, e, users);
      forall u | u in users
        ensures Listed(after, u, if u == e.user then [e.key] + u.notifies else u.notifies)
      {
        WithEntryListed(ranges, slot, e, u, u.notifies);
      }
      ranges := ranges[slot := RangeOf(ranges, slot) + [e]];
      assert ranges == after;
      hide AllShared, WithEntry;
      live := live + {e.key};
      e.user.notifies := [e.key] + e.user.notifies;
    }

    method Remove(name: string, requester: User) returns (removed: bool)
      requires Valid() && requester in users
      modifies this, requester`notifies
      ensures Valid() && removed == old(Registered(ranges, name, requester))
      ensures ranges == WithoutUser(old(ranges), Fold(name), requester)
      ensures !removed ==> requester.notifies == old(requester.notifies)
      ensures removed ==> requester.notifies == Dropped(old(requester.notifies), old(ranges)[Fold(name)][0].key)
    {
      hide Fold;
      var slot := Fold(name);
      if !Registered(ranges, name, requester) {
        NobodyToForget(ranges, slot, requester);
      }
      var p := RangeOf(ranges, slot);
      if p == [] {
        return false;
      }
      var oldkey := p[0].key;
      var found, rest := EraseUser(p, requester);
      if found > 0 {
        Leave(slot, requester, rest, oldkey);
      }
      return found > 0;
    }

    method Leave(slot: string, requester: User, rest: seq<Entry>, oldkey: Key)
      requires Valid() && requester in users && slot in ranges && oldkey == ranges[slot][0].key
      requires rest == Others(ranges[slot], requester)
      modifies this, requester`notifies
      ensures Valid() && ranges == WithoutUser(old(ranges), slot, requester)
      ensures requester.notifies == Dropped(old(requester.notifies), oldkey)
    {
      hide Listed, Entered, Shared, Within, LiveKeys, Others, Dropped;
      ghost var after := WithoutUser(ranges, slot, requester);
      WithoutUserShared(ranges, slot, requester);
      WithoutUserWithin(ranges, slot, requester, users);
      forall u | u in users
        ensures Listed(after, u, if u == requester then Dropped(u.notifies, oldkey) else u.notifies)
      {
        WithoutUserListed(ranges, slot, requester, u, u.notifies);
      }
      ranges := if rest == [] then ranges - {slot} else ranges[slot := rest];
      assert ranges == after;
      hide AllShared, WithoutUser;
      requester.notifies := DropKey(requester.notifies, oldkey);
      if slot !in ranges {
        live := live - {oldkey};
      }
    }

    /** Everybody registered for a client is told, once, and nobody else is. */
    method Notify(client: User, status: Status)
      requires Valid()
      modifies users`outbox
      ensures forall u | u in users ::
                u.outbox
                == old(u.outbox)
                + if !Registered(ranges, client.name, u) then []
                else if status == ComingOnline then [ComputerOnline(client.name, client.linespeed)]
                else [ComputerOffline(client.name)]
    {
      var p := RangeOf(ranges, Fold(client.name));
      assert p == [] || Shared(p, Fold(client.name));
      hide Among, Shared, Listed, AllShared, Fold;
      var i := 0;
      while i < |p|
        invariant 0 <= i <= |p|
        invariant forall u | u in users ::
                    u.outbox == old(u.outbox) + if Among(p[..i], u) then [News(client, status)] else []
      {
        var lc := p[i].user;
        AmongOneMore(p, i);
        lc.Write(News(client, status));
        i := i + 1;
      }
      assert p[..i] == p;
    }

    /** Forgets everything that a user wants to know. */
    method ClearNotifies(caller: User)
      requires Valid() && caller in users
      modifies this, caller`notifies, caller`outbox
      ensures Valid() && caller.notifies == []
      ensures forall n, u | u in users :: Registered(ranges, n, u) <==> u != caller && old(Registered(ranges, n, u))
      ensures caller.outbox == old(caller.outbox) + [NotifyClear(|old(caller.notifies)|)]
    {
      hide Shared, Among, Fold;
      var copy := caller.notifies;
      var i := 0;
      while i < |copy|
        invariant 0 <= i <= |copy| && Valid() && caller.notifies == copy[i..]
        invariant forall n, u | u in users && u != caller :: Registered(ranges, n, u) <==> old(Registered(ranges, n, u))
        invariant caller.outbox == old(caller.outbox)
      {
        ghost var before := ranges;
        var k := copy[i];
        assert caller.notifies[0] == k;
        var removed := Remove(k.text, caller);
        forall n, u | u in users
          ensures Registered(ranges, n, u) <==> Registered(before, n, u) && !(SameName(n, k.text) && u == caller)
        {
          WithoutUserRegisters(before, k.text, caller, n, u);
        }
        i := i + 1;
      }
      caller.Write(NotifyClear(|copy|));
    }
  }

  function News(client: User, status: Status): Message {
    match status
    case ComingOnline => ComputerOnline(client.name, client.linespeed)
    case GoingOffline => ComputerOffline(client.name)
  }

  lemma AmongOneMore(range: seq<Entry>, i: nat)
    requires i < |range| && Distinct(range)
    ensures !Among(range[..i], range[i].user)
    ensures forall u :: Among(range[..i + 1], u) <==> Among(range[..i], u) || u == range[i].user
  {
    assert forall u :: Among(range[..i], u) ==> Among(range[..i + 1], u) by {
      assert forall j | 0 <= j < i :: range[..i][j] == range[..i + 1][j];
    }
    assert Among(range[..i + 1], range[i].user) by { assert range[..i + 1][i] == range[i]; }
    forall u | Among(range[..i + 1], u) && u != range[i].user
      ensures Among(range[..i], u)
    {
      var j :| 0 <= j < i + 1 && range[..i + 1][j].user == u;
      assert range[..i][j].user == u;
    }
  }

  lemma {:induction false} OthersAppend(a: seq<Entry>, b: seq<Entry>, u: User)
    ensures Others(a + b, u) == Others(a, u) + Others(b, u)
  {
    if a == [] {
      assert a + b == b;
    } else {
      assert (a + b)[1..] == a[1..] + b;
      OthersAppend(a[1..], b, u);
    }
  }

  lemma OthersWithout(range: seq<Entry>, i: nat, u: User)
    requires i < |range| && range[i].user == u
    ensures Others(range[..i] + range[i + 1..], u) == Others(range, u)
  {
    var before, after := range[..i], range[i + 1..];
    assert range == before + ([range[i]] + after);
    OthersAppend(before, [range[i]] + after, u);
    OthersAppend(before, after, u);
  }

  /** Erases the entries of a user on the way along a range. */
  method EraseUser(range: seq<Entry>, u: User) returns (found: nat, rest: seq<Entry>)
    ensures rest == Others(range, u) && (found > 0 <==> Among(range, u))
  {
    hide Others;
    found, rest := 0, range;
    var i := 0;
    while i < |rest|
      invariant 0 <= i <= |rest| && forall j | 0 <= j < i :: rest[j].user != u
      invariant Others(rest, u) == Others(range, u)
      invariant if found > 0 then Among(range, u) else rest == range
      decreases |rest| - i
    {
      if rest[i].user == u {
        OthersWithout(rest, i, u);
        OthersAmong(range, u, u);
        ErasedAmong(range, rest, i, u, found);
        rest := rest[..i] + rest[i + 1..];
        found := found + 1;
      } else {
        i := i + 1;
      }
    }
    OthersAre(rest, u);
  }

  lemma ErasedAmong(range: seq<Entry>, rest: seq<Entry>, i: nat, u: User, found: nat)
    requires i < |rest| && rest[i].user == u && (if found > 0 then Among(range, u) else rest == range)
    ensures Among(range, u)
  {
  }

  method DropKey(list: seq<Key>, k: Key) returns (r: seq<Key>)
    ensures r == Dropped(list, k)
  {
    var i := 0;
    assert list[0..] == list;
    while i < |list|
      invariant 0 <= i <= |list| && Dropped(list, k) == list[..i] + Dropped(list[i..], k)
    {
      if list[i] == k {
        return list[..i] + list[i + 1..];
      }
      i := i + 1;
    }
    return list;
  }

  // ---------------------------------------------------------------- whole runs

  datatype Act = Want(name: string, user: User) | Unwant(name: string, user: User) | Forget(user: User)

  /** Whether `u` wants to know about `name` after `a`, having done so before or not. */
  predicate WantsNext(was: bool, a: Act, name: string, u: User) {
    match a
    case Want(n, x) => was || (SameName(name, n) && x == u)
    case Unwant(n, x) => was && !(SameName(name, n) && x == u)
    case Forget(x) => was && x != u
  }

  /** Whether `u` wants to know about `name`, in any spelling, after all that was done. */
  predicate Wants(acts: seq<Act>, name: string, u: User) {
    acts != [] && WantsNext(Wants(acts[..|acts| - 1], name, u), acts[|acts| - 1], name, u)
  }

  /** `a` takes the wish of `u` to know about `name` away. */
  predicate TakesAway(a: Act, name: string, u: User) {
    a.user == u && (a.Forget? || (a.Unwant? && SameName(name, a.name)))
  }

  /** A wish stands exactly if it was made, in whatever spelling, and not taken away since. */
  lemma {:induction false} WantsMeans(acts: seq<Act>, name: string, u: User)
    ensures Wants(acts, name, u)
       <==> exists i :: && 0 <= i < |acts| && acts[i].Want? && SameName(name, acts[i].name) && acts[i].user == u
                        && forall j | i < j < |acts| :: !TakesAway(acts[j], name, u)
    decreases |acts|
  {
    hide SameName;
    if acts != [] {
      var n, before := |acts| - 1, acts[..|acts| - 1];
      WantsMeans(before, name, u);
      assert forall i | 0 <= i < n :: before[i] == acts[i];
      if i :| && 0 <= i < n && before[i].Want? && SameName(name, before[i].name) && before[i].user == u
              && forall j | i < j < n :: !TakesAway(before[j], name, u) {
        if !TakesAway(acts[n], name, u) {
          assert acts[i].Want? && forall j | i < j < |acts| :: !TakesAway(acts[j], name, u);
        }
      }
      if i :| && 0 <= i < |acts| && acts[i].Want? && SameName(name, acts[i].name) && acts[i].user == u
              && forall j | i < j < |acts| :: !TakesAway(acts[j], name, u) {
        if i < n {
          assert before[i].Want? && forall j | i < j < n :: !TakesAway(before[j], name, u);
        }
      }
    }
  }

  method RunNotifies(m: NotifyManager, acts: seq<Act>)
    requires m.Valid() && m.ranges == map[] && forall k | 0 <= k < |acts| :: acts[k].user in m.users
    modifies m, m.users
    ensures m.Valid()
    ensures forall n, u | u in m.users :: Registered(m.ranges, n, u) <==> Wants(acts, n, u)
  {
    hide Shared, Among, Listed, WithEntry, WithoutUser, Fold;
    assert forall n, u :: !Registered(m.ranges, n, u);
    var k := 0;
    while k < |acts|
      invariant 0 <= k <= |acts| && m.Valid()
      invariant forall n, u | u in m.users :: Registered(m.ranges, n, u) <==> Wants(acts[..k], n, u)
    {
      ghost var now := acts[..k + 1];
      assert now[..k] == acts[..k] && now[k] == acts[k];
      Perform(m, acts[k]);
      k := k + 1;
    }
    assert acts[..k] == acts;
  }

  method Perform(m: NotifyManager, a: Act)
    requires m.Valid() && a.user in m.users
    modifies m, m.users
    ensures m.Valid()
    ensures forall n, u | u in m.users ::
              Registered(m.ranges, n, u) <==> WantsNext(old(Registered(m.ranges, n, u)), a, n, u)
  {
    hide Shared, Among, Listed, WithEntry, WithoutUser, Fold;
    ghost var before := m.ranges;
    match a {
      case Want(name, x) =>
        var added := m.Add(name, x);
        if added {
          forall n, u { WithEntryRegisters(before, name, Entry(x.notifies[0], x), n, u); }
        } else {
          forall n { FoldSame(n, name); }
        }
      case Unwant(name, x) =>
        var removed := m.Remove(name, x);
        forall n, u { WithoutUserRegisters(before, name, x, n, u); }
      case Forget(x) => m.ClearNotifies(x);
    }
  }
}