/** Events that are run now and then, but never too often. */
module Scheduling {
  import opened Times

  /** The clock does not go back. */
  class Clock {
    var time: Time

    constructor (t: Time)
      requires Normal(t)
      ensures time == t
    {
      time := t;
    }

    method Now() returns (t: Time)
      requires Normal(time)
      modifies this
      ensures Normal(t) && t == time && Micros(t) >= Micros(old(time))
    {
      t := *;
      t := Normalize(t);
      ComparisonExact(t, time);
      NormalForm(t);
      if Less(t, time) { t := time; }
      time := t;
    }
  }

  /** Successive times lie at least `gap` microseconds apart. */
  ghost predicate Spaced(ts: seq<Time>, gap: int) {
    forall i | 0 < i < |ts| :: Micros(ts[i]) - Micros(ts[i - 1]) >= gap
  }

  /** How many of the times lie in a window. */
  function Count(ts: seq<Time>, from: int, to: int): nat {
    if ts == [] then 0
    else
      var last := Micros(ts[|ts| - 1]);
      Count(ts[..|ts| - 1], from, to) + if from <= last <= to then 1 else 0
  }

  /** The indices of these times. */
  ghost function Within(ts: seq<Time>, from: int, to: int): set<int> {
    set i | 0 <= i < |ts| && from <= Micros(ts[i]) <= to
  }

  lemma {:induction false} CountIs(ts: seq<Time>, from: int, to: int)
    ensures Count(ts, from, to) == |Within(ts, from, to)|
    decreases |ts|
  {
    if ts == [] {
      assert Within(ts, from, to) == {};
    } else {
      var n := |ts| - 1;
      CountIs(ts[..n], from, to);
      assert Within(ts, from, to)
          == Within(ts[..n], from, to) + if from <= Micros(ts[n]) <= to then {n} else {};
    }
  }

  lemma {:induction false} SpacedFar(ts: seq<Time>, gap: int, i: nat, j: nat)
    requires Spaced(ts, gap) && gap >= 0 && i < j < |ts|
    ensures Micros(ts[j]) - Micros(ts[i]) >= gap
    decreases j
  {
    if i < j - 1 { SpacedFar(ts, gap, i, j - 1); }
  }

  lemma {:induction false} CountSpan(ts: seq<Time>, gap: int, from: int, to: int) returns (k: nat)
    requires Spaced(ts, gap) && gap > 0 && Count(ts, from, to) > 0
    ensures k < |ts| && from <= Micros(ts[k]) <= to
    ensures (Count(ts, from, to) - 1) * gap <= Micros(ts[k]) - from
  {
    var n := |ts| - 1;
    var before := Count(ts[..n], from, to);
    if before == 0 {
      k := n;
    } else {
      k := CountSpan(ts[..n], gap, from, to);
      SpacedFar(ts, gap, k, n);
      if from <= Micros(ts[n]) <= to {
        OneMore(before, gap);
        k := n;
      }
    }
  }

  lemma OneMore(n: int, gap: int)
    ensures (n - 1) * gap + gap == n * gap
  {
  }

  lemma TooMany(n: int, gap: int, length: nat)
    requires gap > 0 && n >= length / gap + 1
    ensures n * gap > length
  {
    assert n * gap >= (length / gap + 1) * gap;
  }

  /** Of times that far apart, a window of length `length` holds at most one more than there are
      gaps in it. */
  lemma WindowBound(ts: seq<Time>, gap: int, from: int, length: nat)
    requires Spaced(ts, gap) && gap > 0
    ensures Count(ts, from, from + length) <= 1 + length / gap
    ensures |Within(ts, from, from + length)| <= 1 + length / gap
  {
    CountIs(ts, from, from + length);
    hide Within;
    var c := Count(ts, from, from + length);
    if c > 1 + length / gap {
      TooMany(c - 1, gap, length);
      var k := CountSpan(ts, gap, from, from + length);
    }
  }

  class Event {
    var lastRun: Time
    const frequency: Time
    /** When it was run, and whether the last run succeeded */
    ghost var runs: seq<Time>
    ghost var lastOk: bool

    constructor (frequency: Time)
      ensures this.frequency == frequency && lastRun == Time(0, 0) && runs == []
    {
      this.frequency, lastRun, runs := frequency, Time(0, 0), [];
    }

    ghost predicate Recorded()
      reads this
    {
      Normal(lastRun) && (runs != [] ==> lastRun == runs[|runs| - 1])
    }

    /** It has not run too often. */
    ghost predicate Valid()
      reads this
    {
      Recorded() && Spaced(runs, Bound(frequency))
    }

    method Ready(clock: Clock) returns (ready: bool)
      requires Recorded() && Normal(clock.time)
      modifies clock
      ensures Normal(clock.time) && Micros(clock.time) >= Micros(old(clock.time))
      ensures ready <==> Micros(clock.time) - Micros(lastRun) >= Bound(frequency)
    {
      var now := clock.Now();
      var elapsed := Minus(now, lastRun);
      ArithmeticExact(now, lastRun);
      AtLeastBound(elapsed, frequency);
      return AtLeast(elapsed, frequency);
    }

    /** `run`, ready or not; the handler does as it pleases. */
    method Run(clock: Clock) returns (ok: bool)
      requires Recorded() && Normal(clock.time)
      modifies this`lastRun, this`runs, this`lastOk, clock
      ensures ok == lastOk
      ensures Recorded() && Normal(clock.time) && Micros(clock.time) >= Micros(old(clock.time))
      ensures old(Valid()) && old(Micros(clock.time) - Micros(lastRun)) >= Bound(frequency) ==> Valid()
      ensures runs == old(runs) + [lastRun]
      ensures Micros(old(clock.time)) <= Micros(lastRun) <= Micros(clock.time)
    {
      lastRun := clock.Now();
      runs := runs + [lastRun];
      var later := clock.Now();
      ok := *;
      lastOk := ok;
    }
  }

  class Scheduler {
    var events: seq<Event>
    var lastRun: Time
    const interval: Time
    /** When a pass was made over the events, after the time of construction */
    ghost var passes: seq<Time>

    constructor (clock: Clock)
      requires Normal(clock.time)
      modifies clock
      ensures Valid() && Normal(clock.time) && events == [] && |passes| == 1
    {
      interval, events := Time(60, 0), [];
      var t := clock.Now();
      lastRun := t;
      passes := [t];
    }

    ghost predicate Valid()
      reads this, events
    {
      && Normal(lastRun) && Normal(interval) && Micros(interval) == 60_000_000 && Spaced(passes, 60_000_000)
      && passes != [] && lastRun == passes[|passes| - 1]
      && (forall i | 0 <= i < |events| :: events[i].Valid())
      && forall i, j | 0 <= i < j < |events| :: events[i] != events[j]
    }

    /** An event without a handler, or one to be run all the time, is refused. */
    method Add(hasHandler: bool, frequency: Time) returns (added: bool)
      requires Valid()
      modifies this`events
      ensures Valid() && added == (hasHandler && frequency != Time(0, 0))
      ensures !added ==> events == old(events)
      ensures added ==> |events| == |old(events)| + 1 && events[..|old(events)|] == old(events)
      ensures added ==> fresh(events[|old(events)|]) && events[|old(events)|].frequency == frequency
      ensures added ==> events[|old(events)|].runs == []
    {
      if !hasHandler || (frequency.sec == 0 && frequency.usec == 0) {
        return false;
      }
      var e := new Event(frequency);
      events := events + [e];
      return true;
    }

    /** `run`: a pass over the events if the interval has gone by, and nothing otherwise. */
    method Run(clock: Clock) returns (ok: bool)
      requires Valid() && Normal(clock.time)
      modifies this`lastRun, this`passes, events, clock
      ensures Valid() && Normal(clock.time) && Micros(clock.time) >= Micros(old(clock.time))
      ensures passes == old(passes) || (passes == old(passes) + [lastRun] && Micros(lastRun) >= Micros(old(clock.time)))
      ensures passes == old(passes) ==>
                && ok && Micros(clock.time) - Micros(lastRun) < Micros(interval)
                && forall i | 0 <= i < |events| :: events[i].runs == old(events[i].runs)
      ensures passes != old(passes) ==>
                (ok <==> forall i | 0 <= i < |events| && events[i].runs != old(events[i].runs) :: events[i].lastOk)
      ensures passes != old(passes) ==>
                forall i | 0 <= i < |events| ::
                  Passed(events[i], old(events[i].runs), old(events[i].lastRun), lastRun, clock.time)
    {
      var now := clock.Now();
      ArithmeticExact(now, lastRun);
      ComparisonExact(Minus(now, lastRun), interval);
      if Less(Minus(now, lastRun), interval) {
        return true;
      }
      lastRun := now;
      passes := passes + [now];
      var failed := RunEvents(clock);
      return !failed;
    }

    method RunEvents(clock: Clock) returns (failed: bool)
      requires Valid() && Normal(clock.time)
      modifies events, clock
      ensures Valid() && Normal(clock.time) && Micros(clock.time) >= Micros(old(clock.time))
      ensures failed <==> exists i :: 0 <= i < |events| && events[i].runs != old(events[i].runs) && !events[i].lastOk
      ensures forall i | 0 <= i < |events| ::
                Passed(events[i], old(events[i].runs), old(events[i].lastRun), old(clock.time), clock.time)
    {
      hide Spaced, Passed, Normal;
      failed := false;
      var i := 0;
      while i < |events|
        invariant 0 <= i <= |events|
        invariant Valid() && Normal(clock.time) && Micros(clock.time) >= Micros(old(clock.time))
        invariant failed <==> exists k :: 0 <= k < i && events[k].runs != old(events[k].runs) && !events[k].lastOk
        invariant forall k | 0 <= k < i ::
                    Passed(events[k], old(events[k].runs), old(events[k].lastRun), old(clock.time), clock.time)
        invariant forall k | i <= k < |events| ::
                    events[k].runs == old(events[k].runs) && events[k].lastRun == old(events[k].lastRun)
      {
        ghost var t := clock.time;
        var ok := RunIfReady(events[i], clock);
        forall k | 0 <= k <= i
          ensures Passed(events[k], old(events[k].runs), old(events[k].lastRun), old(clock.time), clock.time)
        {
          PassedWithin(events[k], old(events[k].runs), old(events[k].lastRun),
                       if k < i then old(clock.time) else t, if k < i then t else clock.time,
                       old(clock.time), clock.time);
        }
        failed := failed || !ok;
        i := i + 1;
      }
    }
  }

  /** One turn of a pass. */
  method RunIfReady(e: Event, clock: Clock) returns (ok: bool)
    requires e.Valid() && Normal(clock.time)
    modifies e`lastRun, e`runs, e`lastOk, clock
    ensures e.Valid() && Normal(clock.time) && Micros(clock.time) >= Micros(old(clock.time))
    ensures Passed(e, old(e.runs), old(e.lastRun), old(clock.time), clock.time)
    ensures ok <==> e.runs == old(e.runs) || e.lastOk
  {
    hide Spaced;
    ok := true;
    var ready := e.Ready(clock);
    if ready {
      ok := e.Run(clock);
    }
  }

  lemma PassedWithin(e: Event, runs: seq<Time>, lastRun: Time, start: Time, end: Time, from: Time, to: Time)
    requires Passed(e, runs, lastRun, start, end)
    requires Micros(from) <= Micros(start) && Micros(end) <= Micros(to)
    ensures Passed(e, runs, lastRun, from, to)
  {
  }

  /** What a pass from `start` to `end` did to an event: it ran once if it was due already, not at
      all if it is not due yet, and at most once in between. */
  ghost predicate Passed(e: Event, runs: seq<Time>, lastRun: Time, start: Time, end: Time)
    reads e
  {
    var due := Micros(lastRun) + Bound(e.frequency);
    && ((e.runs == runs && e.lastRun == lastRun)
        || (e.runs == runs + [e.lastRun] && Micros(start) <= Micros(e.lastRun) <= Micros(end)))
    && (due <= Micros(start) ==> e.runs != runs)
    && (Micros(end) < due ==> e.runs == runs)
  }
}
