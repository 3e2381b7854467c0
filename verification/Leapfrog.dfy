/** The merge that intersects posting sets by leaping from one to the next. */
module Leapfrog {
  import opened Options

  // ---------------------------------------------------------------- ordered sets

  /** What `lower_bound` of a `set<File *>` points at; `None` is `end()`. */
  function LowerBound(s: set<int>, x: int): (r: Option<int>)
    ensures r.Some? ==> r.value in s && x <= r.value
    ensures forall e | e in s && x <= e :: r.Some? && r.value <= e
  {
    var above := set e | e in s && x <= e;
    assert forall e | e in s && x <= e :: e in above;
    if |above| == 0 then None else Some(Least(above))
  }

  function Least(s: set<int>): (m: int)
    requires s != {}
    ensures m in s && forall e | e in s :: m <= e
  {
    HasLeast(s);
    var m :| m in s && forall e | e in s :: m <= e;
    m
  }

  lemma SomeElement<T>(s: set<T>) returns (x: T)
    requires s != {}
    ensures x in s
  {
    x :| x in s;
  }

  lemma {:induction false} HasLeast(s: set<int>)
    requires s != {}
    ensures exists m :: m in s && forall e | e in s :: m <= e
    decreases |s|
  {
    var x := SomeElement(s);
    var rest := s - {x};
    assert s == rest + {x};
    if rest == {} {
      assert s == {x};
    } else {
      HasLeast(rest);
      var m :| m in rest && forall e | e in rest :: m <= e;
      var low := if x < m then x else m;
      assert low in s && forall e | e in s :: low <= e;
    }
  }

  /** Reference result: the first `n` elements in ascending order. */
  function First(s: set<int>, n: nat): seq<int>
    decreases n
  {
    if s == {} || n == 0 then [] else [Least(s)] + First(s - {Least(s)}, n - 1)
  }

  function Reverse(s: seq<int>): seq<int> {
    if s == [] then [] else Reverse(s[1..]) + [s[0]]
  }

  lemma {:induction false} ReverseMeans(s: seq<int>)
    ensures |Reverse(s)| == |s| && forall i | 0 <= i < |s| :: Reverse(s)[i] == s[|s| - 1 - i]
    ensures forall e :: e in Reverse(s) <==> e in s
  {
    if s != [] { ReverseMeans(s[1..]); }
  }

  /** `First` is what it says: ascending, from `s`, all of `s` if that is few enough, and nothing
      left out that is smaller than something taken. */
  lemma {:induction false} FirstMeaning(s: set<int>, n: nat)
    ensures |First(s, n)| == if |s| <= n then |s| else n
    ensures forall i, j | 0 <= i < j < |First(s, n)| :: First(s, n)[i] < First(s, n)[j]
    ensures forall e | e in First(s, n) :: e in s
    ensures forall e, f | e in First(s, n) && f in s && f !in First(s, n) :: e < f
    decreases n
  {
    if s != {} && n != 0 {
      var x := Least(s);
      var rest := First(s - {x}, n - 1);
      FirstMeaning(s - {x}, n - 1);
      assert forall e | e in rest :: e in s - {x};
      forall j | 0 <= j < |rest|
        ensures x < rest[j]
      {
        assert rest[j] in rest;
      }
    }
  }

  ghost function From(s: set<int>, x: int): set<int> {
    set e | e in s && x <= e
  }

  lemma LeastOfFrom(s: set<int>, x: int)
    requires x in s
    ensures x in From(s, x) && Least(From(s, x)) == x && From(s, x) - {x} == From(s, x + 1)
  {
    assert x in From(s, x);
    assert Least(From(s, x)) in From(s, x);
  }

  // ---------------------------------------------------------------- the merge as a machine

  /** What stays fixed during one merge: the required sets, which files are reported, and how
      many at most. */
  datatype Task = Task(lists: seq<set<int>>, kept: set<int>, limit: nat)

  ghost predicate Sound(k: Task) {
    |k.lists| >= 2 && k.limit >= 1 && forall j | 0 <= j < |k.lists| :: forall e | e in k.lists[j] :: e > 0
  }

  /** The files in all the required sets. */
  ghost function Common(lists: seq<set<int>>): set<int>
    requires |lists| > 0
  {
    set e | e in lists[0] && forall j | 0 <= j < |lists| :: e in lists[j]
  }

  ghost function Hits(k: Task): set<int>
    requires |k.lists| > 0
  {
    Common(k.lists) * k.kept
  }

  /** The loop's variables; `matches` is an 8-bit counter and `out` has the newest file first. */
  datatype Cursor = Cursor(i: nat, curval: int, matches: int, out: seq<int>)

  datatype Step = Running(c: Cursor) | Done(out: seq<int>)

  const Start := Cursor(0, 0, 0, [])

  function Following(i: nat, n: nat): nat {
    if i + 1 == n then 0 else i + 1
  }

  /** One turn of the loop. */
  function Probe(k: Task, c: Cursor): Step
    requires c.i < |k.lists|
  {
    var list := k.lists[c.i];
    var next := Following(c.i, |k.lists|);
    match LowerBound(list, c.curval)
    case None => Done(c.out)
    case Some(v) =>
      if v != c.curval then Running(Cursor(next, v, 1, c.out))
      else
        var matches := (c.matches + 1) % 256;
        if matches != |k.lists| then Running(Cursor(next, v, matches, c.out)) else Take(k, c)
  }

  /** The turn that finds the last list to hold `curval` too. */
  function Take(k: Task, c: Cursor): Step
    requires c.i < |k.lists|
  {
    var out := if c.curval in k.kept then [c.curval] + c.out else c.out;
    if c.curval in k.kept && |out| >= k.limit then Done(out)
    else
      match LowerBound(k.lists[c.i], c.curval + 1)
      case None => Done(out)
      case Some(w) => Running(Cursor(Following(c.i, |k.lists|), w, 1, out))
  }

  function Turns(k: Task, n: nat): (s: Step)
    requires |k.lists| > 0
    ensures s.Running? ==> s.c.i < |k.lists|
  {
    if n == 0 then Running(Start)
    else
      var s := Turns(k, n - 1);
      if s.Done? then s else Probe(k, s.c)
  }

  // ---------------------------------------------------------------- what every turn keeps

  /** How many turns ago list `j` was probed, the list before `i` counting as 0. */
  function Ago(j: nat, i: nat, n: nat): int {
    if j < i then i - 1 - j else i - 1 - j + n
  }

  function UpTo(s: set<int>, x: int): nat {
    |set e | e in s && e <= x|
  }

  /** The last `run` lists probed hold `curval`; `matches` is `run` in 8 bits; `last[j]` is where
      list `j` was last found, so far `rounds` times round. */
  ghost predicate Inv(k: Task, c: Cursor, run: nat, last: seq<int>, rounds: nat)
    requires |k.lists| > 0
  {
    var n := |k.lists|;
    && c.i < n && run < n && c.matches == run % 256
    && |last| == n
    && (forall j | 0 <= j < n :: last[j] <= c.curval)
    && (forall j | 0 <= j < n :: if Ago(j, c.i, n) < run then c.curval in k.lists[j] else last[j] < c.curval)
    && (forall j | 0 <= j < n :: rounds + (if j < c.i then 1 else 0) <= UpTo(k.lists[j], last[j]))
    && Pending(k, c)
  }

  /** What was reported and what is still to come make up the reference result. */
  ghost predicate Pending(k: Task, c: Cursor)
    requires |k.lists| > 0
  {
    |c.out| < k.limit
    && Reverse(c.out) + First(From(Hits(k), c.curval), k.limit - |c.out|) == First(Hits(k), k.limit)
  }

  /** Either the 8-bit counter can reach the number of lists, or it will never have to. */
  ghost predicate CounterSuffices(k: Task)
    requires |k.lists| > 0
  {
    |k.lists| <= 255 || Common(k.lists) == {}
  }

  lemma StartInv(k: Task) returns (last: seq<int>)
    requires Sound(k)
    ensures Inv(k, Start, 0, last, 0)
  {
    last := seq(|k.lists|, _ => -1);
    assert From(Hits(k), 0) == Hits(k);
  }

  lemma UpToGrows(s: set<int>, x: int, y: int)
    requires x < y && y in s
    ensures UpTo(s, x) + 1 <= UpTo(s, y)
  {
    var a, b := set e | e in s && e <= x, set e | e in s && e <= y;
    assert a + {y} <= b && y !in a;
    Included(a + {y}, b);
  }

  lemma {:induction false} Included(a: set<int>, b: set<int>)
    requires a <= b
    ensures |a| <= |b|
  {
    assert a + (b - a) == b;
  }

  /** Leaping over what one required set does not hold skips no hit. */
  lemma LeapKeepsPending(k: Task, c: Cursor, v: int)
    requires Sound(k) && c.i < |k.lists| && Pending(k, c)
    requires LowerBound(k.lists[c.i], c.curval) == Some(v)
    ensures Pending(k, c.(curval := v))
  {
    assert From(Hits(k), c.curval) == From(Hits(k), v);
  }

  lemma PastTheEnd(k: Task, c: Cursor)
    requires Sound(k) && c.i < |k.lists| && Pending(k, c)
    requires LowerBound(k.lists[c.i], c.curval) == None
    ensures Reverse(c.out) == First(Hits(k), k.limit)
  {
    assert From(Hits(k), c.curval) == {};
  }

  /** A file found in all the required sets is the next hit, if it is one at all. */
  lemma TakeHit(k: Task, c: Cursor)
    requires Sound(k) && c.i < |k.lists| && Pending(k, c) && c.curval in Common(k.lists)
    ensures var out := if c.curval in k.kept then [c.curval] + c.out else c.out;
            if |out| >= k.limit then Reverse(out) == First(Hits(k), k.limit)
            else Pending(k, Cursor(c.i, c.curval + 1, c.matches, out))
  {
    var hits := Hits(k);
    if c.curval in k.kept {
      LeastOfFrom(hits, c.curval);
      var out := [c.curval] + c.out;
      assert out[1..] == c.out;
      var rest := First(From(hits, c.curval + 1), k.limit - |c.out| - 1);
      assert Reverse(out) + rest == Reverse(c.out) + ([c.curval] + rest);
      if |out| >= k.limit { assert Reverse(out) + rest == Reverse(out); }
    } else {
      assert From(hits, c.curval) == From(hits, c.curval + 1);
    }
  }

  /** After a full round on one file, every required set holds it. */
  lemma RunIsCommon(k: Task, c: Cursor, run: nat, last: seq<int>, rounds: nat)
    requires |k.lists| >= 2 && Inv(k, c, run, last, rounds) && run + 1 == |k.lists| && c.curval in k.lists[c.i]
    ensures c.curval in Common(k.lists)
  {
  }

  /** The 8-bit comparison tells exactly when the round is full. */
  lemma CounterIsRun(k: Task, c: Cursor, run: nat, last: seq<int>, rounds: nat)
    requires Sound(k) && CounterSuffices(k) && Inv(k, c, run, last, rounds) && c.curval in k.lists[c.i]
    ensures (c.matches + 1) % 256 == |k.lists| <==> run + 1 == |k.lists|
    ensures (c.matches + 1) % 256 == (run + 1) % 256
    ensures (c.matches + 1) % 256 == |k.lists| ==> c.curval in Common(k.lists)
  {
    if run + 1 == |k.lists| {
      RunIsCommon(k, c, run, last, rounds);
    }
  }

  /** Finding `v` in list `c.i` and going on to the next list. */
  lemma Visit(k: Task, c: Cursor, run: nat, last: seq<int>, rounds: nat, v: int, d: Cursor, run': nat)
    requires Sound(k) && Inv(k, c, run, last, rounds)
    requires LowerBound(k.lists[c.i], c.curval) == Some(v)
    requires d.i == Following(c.i, |k.lists|) && d.matches == run' % 256 && Pending(k, d)
    requires d.curval in k.lists[c.i] && v <= d.curval
    requires if d.curval == c.curval then run' == run + 1 < |k.lists| else run' == 1
    ensures Inv(k, d, run', last[c.i := v], if d.i == 0 then rounds + 1 else rounds)
  {
    var n := |k.lists|;
    assert Ago(c.i, c.i, n) == n - 1;
    UpToGrows(k.lists[c.i], last[c.i], v);
    forall j | 0 <= j < n
      ensures Ago(j, d.i, n) == if j == c.i then 0 else Ago(j, c.i, n) + 1
    {
    }
  }

  /** Every turn keeps the invariant ... */
  lemma ProbeKeeps(k: Task, c: Cursor, run: nat, last: seq<int>, rounds: nat)
    returns (run': nat, last': seq<int>, rounds': nat)
    requires Sound(k) && CounterSuffices(k) && Inv(k, c, run, last, rounds) && Probe(k, c).Running?
    ensures Inv(k, Probe(k, c).c, run', last', rounds')
    ensures Probe(k, c).c.i == Following(c.i, |k.lists|)
    ensures rounds' == if Probe(k, c).c.i == 0 then rounds + 1 else rounds
  {
    var d := Probe(k, c).c;
    var v := LowerBound(k.lists[c.i], c.curval).value;
    LeapKeepsPending(k, c, v);
    run' := 1;
    if v == c.curval {
      CounterIsRun(k, c, run, last, rounds);
      if (c.matches + 1) % 256 == |k.lists| {
        TakeHit(k, c);
        LeapKeepsPending(k, Cursor(c.i, v + 1, c.matches, d.out), d.curval);
      } else {
        run' := run + 1;
      }
    }
    Visit(k, c, run, last, rounds, v, d, run');
    last', rounds' := last[c.i := v], if d.i == 0 then rounds + 1 else rounds;
  }

  /** ... and the turn that ends the loop leaves the reference result, newest first. */
  lemma ProbeEnds(k: Task, c: Cursor, run: nat, last: seq<int>, rounds: nat)
    requires Sound(k) && CounterSuffices(k) && Inv(k, c, run, last, rounds) && Probe(k, c).Done?
    ensures Reverse(Probe(k, c).out) == First(Hits(k), k.limit)
  {
    match LowerBound(k.lists[c.i], c.curval)
    case None => PastTheEnd(k, c);
    case Some(v) =>
      CounterIsRun(k, c, run, last, rounds);
      TakeHit(k, c);
      var out := Probe(k, c).out;
      if |out| < k.limit {
        PastTheEnd(k, Cursor(c.i, v + 1, c.matches, out));
      }
  }

  /** Each list has been found at a larger element on each visit, so there were no more visits
      than its size. */
  lemma VisitsBounded(k: Task, c: Cursor, run: nat, last: seq<int>, rounds: nat, j: nat)
    requires |k.lists| > 0 && Inv(k, c, run, last, rounds) && j < |k.lists|
    ensures rounds <= |k.lists[j]|
  {
    Included((set e | e in k.lists[j] && e <= last[j]), k.lists[j]);
  }

  // ---------------------------------------------------------------- when the loop ends at all

  /** With a common file and more lists than the counter can count, the loop never ends: it comes
      back to that file for ever. */
  lemma {:induction false} NeverEnds(k: Task, x: int, n: nat)
    requires Sound(k) && |k.lists| > 255 && x in Common(k.lists)
    ensures Turns(k, n).Running? && Turns(k, n).c.curval <= x && 0 <= Turns(k, n).c.matches < 256
    decreases n
  {
    if n == 0 {
      assert x in k.lists[0];
    } else {
      NeverEnds(k, x, n - 1);
      var c := Turns(k, n - 1).c;
      assert x in k.lists[c.i];
    }
  }

  /** `n` turns have led to `c`. */
  datatype Progress = Progress(run: nat, last: seq<int>, rounds: nat)

  ghost predicate Reached(k: Task, c: Cursor, p: Progress, n: nat)
    requires |k.lists| > 0
  {
    && Inv(k, c, p.run, p.last, p.rounds)
    && Turns(k, n) == Running(c)
    && n == p.rounds * |k.lists| + c.i
    && p.rounds <= |k.lists[0]|
  }

  /** `n` probes are at most one round of the lists for each element of the smallest, and one. */
  ghost predicate Frugal(lists: seq<set<int>>, n: nat) {
    forall j | 0 <= j < |lists| :: n <= |lists| * (|lists[j]| + 1)
  }

  lemma Begin(k: Task) returns (p: Progress)
    requires Sound(k)
    ensures Reached(k, Start, p, 0) && p.rounds == 0
  {
    var last := StartInv(k);
    p := Progress(0, last, 0);
  }

  lemma OneRoundMore(rounds: nat, lists: nat)
    ensures (rounds + 1) * lists == rounds * lists + lists
  {
  }

  lemma Advance(k: Task, c: Cursor, p: Progress, n: nat) returns (p': Progress)
    requires Sound(k) && CounterSuffices(k) && Reached(k, c, p, n) && Probe(k, c).Running?
    ensures Reached(k, Probe(k, c).c, p', n + 1)
    ensures Probe(k, c).c.i < |k.lists| && p'.rounds <= |k.lists[0]| && |Probe(k, c).c.out| < k.limit
    ensures p'.rounds > p.rounds || (p'.rounds == p.rounds && Probe(k, c).c.i > c.i)
  {
    var run, last, rounds := ProbeKeeps(k, c, p.run, p.last, p.rounds);
    p' := Progress(run, last, rounds);
    VisitsBounded(k, Probe(k, c).c, run, last, rounds, 0);
    OneRoundMore(p.rounds, |k.lists|);
    hide First, Reverse, Probe, Common, Hits, CounterSuffices, Sound;
  }

  lemma Finish(k: Task, c: Cursor, p: Progress, n: nat)
    requires Sound(k) && CounterSuffices(k) && Reached(k, c, p, n) && Probe(k, c).Done?
    ensures Turns(k, n + 1) == Probe(k, c) && Probe(k, c).out == Reverse(First(Hits(k), k.limit))
    ensures Frugal(k.lists, n + 1)
  {
    ProbeEnds(k, c, p.run, p.last, p.rounds);
    ReverseTwice(Probe(k, c).out);
    forall j | 0 <= j < |k.lists|
      ensures n + 1 <= |k.lists| * (|k.lists[j]| + 1)
    {
      VisitsBounded(k, c, p.run, p.last, p.rounds, j);
      ProbeCount(p.rounds, c.i, |k.lists|, |k.lists[j]|);
    }
  }

  /** One turn, whichever way it goes. */
  lemma Turn(k: Task, c: Cursor, p: Progress, n: nat) returns (p': Progress)
    requires Sound(k) && CounterSuffices(k) && Reached(k, c, p, n)
    ensures match Probe(k, c)
            case Done(out) => out == Reverse(First(Hits(k), k.limit)) && Frugal(k.lists, n + 1)
            case Running(d) =>
              && Reached(k, d, p', n + 1) && d.i < |k.lists| && |d.out| < k.limit
              && (p'.rounds > p.rounds || (p'.rounds == p.rounds && d.i > c.i)) && p'.rounds <= |k.lists[0]|
  {
    p' := p;
    if Probe(k, c).Done? {
      Finish(k, c, p, n);
    } else {
      p' := Advance(k, c, p, n);
    }
  }

  lemma {:induction false} EndsFrom(k: Task, c: Cursor, p: Progress, n: nat) returns (m: nat)
    requires Sound(k) && CounterSuffices(k) && Reached(k, c, p, n)
    ensures Turns(k, m) == Done(Reverse(First(Hits(k), k.limit)))
    ensures Frugal(k.lists, m)
    decreases |k.lists[0]| - p.rounds, |k.lists| - c.i
  {
    if Probe(k, c).Running? {
      var p' := Advance(k, c, p, n);
      m := EndsFrom(k, Probe(k, c).c, p', n + 1);
    } else {
      Finish(k, c, p, n);
      m := n + 1;
    }
  }

  /** Otherwise it ends, with the reference result, within this many probes. */
  lemma Ends(k: Task) returns (n: nat)
    requires Sound(k) && CounterSuffices(k)
    ensures Turns(k, n) == Done(Reverse(First(Hits(k), k.limit)))
    ensures Frugal(k.lists, n)
  {
    var p := Begin(k);
    n := EndsFrom(k, Start, p, 0);
  }

  lemma ProbeCount(rounds: nat, i: nat, lists: nat, size: nat)
    requires rounds <= size && i < lists
    ensures rounds * lists + i + 1 <= lists * (size + 1)
  {
    assert rounds * lists <= size * lists;
  }

  /** The exact condition for the loop to end. */
  lemma EndsIff(k: Task)
    requires Sound(k)
    ensures (exists n: nat :: Turns(k, n).Done?) <==> CounterSuffices(k)
  {
    if CounterSuffices(k) {
      var n := Ends(k);
    } else {
      var x := SomeElement(Common(k.lists));
      forall n: nat
        ensures Turns(k, n).Running?
      {
        NeverEnds(k, x, n);
      }
    }
  }

  lemma {:induction false} ReverseConcat(a: seq<int>, b: seq<int>)
    ensures Reverse(a + b) == Reverse(b) + Reverse(a)
    decreases |a|
  {
    if a == [] {
      assert a + b == b;
    } else {
      assert (a + b)[1..] == a[1..] + b;
      ReverseConcat(a[1..], b);
    }
  }

  lemma {:induction false} ReverseTwice(s: seq<int>)
    ensures Reverse(Reverse(s)) == s
    decreases |s|
  {
    if s != [] {
      ReverseTwice(s[1..]);
      ReverseConcat(Reverse(s[1..]), [s[0]]);
    }
  }
}
