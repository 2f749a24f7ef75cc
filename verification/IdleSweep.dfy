/** How long an idle transaction lives (src.old/strusContext.cpp, src.old/strusIndexContext.cpp). */
module IdleSweep {
  import opened Transactions
  import opened TransactionRuns

  // ------------------------------------------------------------------
  // The age
  // ------------------------------------------------------------------

  /** The age is the time since the last use if and only if that is not negative and
      fits into 32 bits. */
  lemma AgeIsElapsed(now: int, lastUsed: int)
    ensures Age(now, lastUsed) == now - lastUsed <==> 0 <= now - lastUsed < 0x1_0000_0000
  {}

  /** A clock set back makes a transaction look old: one used `back` seconds in the
      future is swept unless that is nearly the whole range. */
  lemma ClockSetBack(s: State, id: string, maxIdle: nat, now: int)
    requires id in s.transMap
    requires 0 < s.transMap[id].lastUsed - now < 0x1_0000_0000
    ensures id in Overdue(s, maxIdle, now) <==> s.transMap[id].lastUsed - now < 0x1_0000_0000 - maxIdle
  {
    var back := s.transMap[id].lastUsed - now;
    assert Age(now, s.transMap[id].lastUsed) == 0x1_0000_0000 - back;
  }

  // ------------------------------------------------------------------
  // The sweep as written
  // ------------------------------------------------------------------

  datatype Outcome = Defined(state: State) | Undefined

  /** The loop as written erases the entry its iterator stands on and then advances
      the iterator, which is undefined. `order` are the entries still to come. */
  function SweepAsWritten(s: State, order: seq<string>, maxIdle: nat, now: int): Outcome {
    if order == [] then Defined(s)
    else if order[0] in Overdue(s, maxIdle, now) then Undefined
    else SweepAsWritten(s, order[1..], maxIdle, now)
  }

  /** As written the sweep does what it is for if and only if there is nothing to sweep. */
  lemma {:induction false} SweepAsWrittenDefined(s: State, order: seq<string>, maxIdle: nat, now: int)
    requires forall id :: id in Overdue(s, maxIdle, now) ==> id in order
    ensures SweepAsWritten(s, order, maxIdle, now) == Defined(Discard(s, Overdue(s, maxIdle, now)))
            <==> Overdue(s, maxIdle, now) == {}
  {
    WalkAsWritten(s, order, maxIdle, now);
    var ids := Overdue(s, maxIdle, now);
    if ids == {} {
      assert s.transMap - {} == s.transMap;
      assert Discard(s, {}).handles == s.handles;
    } else {
      var id :| id in ids;
      assert id in order;
    }
  }

  lemma {:induction false} WalkAsWritten(s: State, order: seq<string>, maxIdle: nat, now: int)
    ensures SweepAsWritten(s, order, maxIdle, now) ==
            if exists id :: id in order && id in Overdue(s, maxIdle, now) then Undefined else Defined(s)
  {
    if order != [] {
      WalkAsWritten(s, order[1..], maxIdle, now);
      assert order == [order[0]] + order[1..];
    }
  }

  // ------------------------------------------------------------------
  // The bound
  // ------------------------------------------------------------------

  /** A timed run: the clock never goes back, fits into 32 bits, and no more than
      `gap` seconds pass from one timer tick to the next. */
  ghost predicate Timely(events: seq<Event>, gap: nat) {
    && (forall i :: 0 <= i < |events| ==> 0 <= events[i].now < 0x1_0000_0000)
    && (forall i, j :: 0 <= i <= j < |events| ==> events[i].now <= events[j].now)
    && (forall i :: 0 <= i < |events| ==> events[i].now - LastTick(events[..i]) <= gap)
  }

  /** The time of the last tick; the timer starts at time zero. */
  function LastTick(events: seq<Event>): int {
    if events == [] then 0
    else if events[|events| - 1].command.Tick? then events[|events| - 1].now
    else LastTick(events[..|events| - 1])
  }

  function Clock(events: seq<Event>): int {
    if events == [] then 0 else events[|events| - 1].now
  }

  /** Between ticks: the last wake-up is at most ten seconds before the last tick, and
      what it left was used at most `maxIdle` seconds before it. */
  ghost predicate OnTime(s: State, maxIdle: nat, lastTick: int, clock: int) {
    && 0 <= s.lastWake <= lastTick <= clock && lastTick - s.lastWake <= HOUSEKEEPING
    && forall id :: id in s.transMap ==>
         s.lastWake - s.transMap[id].lastUsed <= maxIdle && 0 <= s.transMap[id].lastUsed <= clock
  }

  lemma {:induction false} OnTimeStep(g: Settings, s: State, e: Event, lastTick: int, clock: int)
    requires Shaped(s) && OnTime(s, g.maxIdle, lastTick, clock) && clock <= e.now < 0x1_0000_0000
    ensures OnTime(Step(g, s, e.command, e.now).0, g.maxIdle, if e.command.Tick? then e.now else lastTick, e.now)
  {
    var t := Step(g, s, e.command, e.now).0;
    if e.command.Tick? {
      if e.now - s.lastWake > HOUSEKEEPING {
        forall id | id in t.transMap ensures e.now - t.transMap[id].lastUsed <= g.maxIdle {
          assert id !in Overdue(s, g.maxIdle, e.now);
          AgeIsElapsed(e.now, s.transMap[id].lastUsed);
        }
      }
    } else {
      forall id | id in t.transMap
        ensures s.lastWake - t.transMap[id].lastUsed <= g.maxIdle && 0 <= t.transMap[id].lastUsed <= e.now
      {
        assert (id in s.transMap && t.transMap[id].lastUsed == s.transMap[id].lastUsed)
               || t.transMap[id].lastUsed == e.now;
      }
    }
  }

  lemma {:induction false} RunOnTime(g: Settings, events: seq<Event>, gap: nat)
    requires Timely(events, gap)
    ensures OnTime(Run(g, events).0, g.maxIdle, LastTick(events), Clock(events))
  {
    if events != [] {
      var n := |events| - 1;
      var before := events[..n];
      TimelyPrefix(events, gap);
      RunOnTime(g, before, gap);
      assert n > 0 ==> before[n - 1] == events[n - 1];
      OnTimeStep(g, Run(g, before).0, events[n], LastTick(before), Clock(before));
    }
  }

  lemma {:induction false} TimelyPrefix(events: seq<Event>, gap: nat)
    requires Timely(events, gap) && events != []
    ensures Timely(events[..|events| - 1], gap)
  {
    var before := events[..|events| - 1];
    forall i | 0 <= i < |before| ensures before[i].now - LastTick(before[..i]) <= gap {
      assert before[..i] == events[..i] && before[i] == events[i];
    }
  }

  /** What a tick does to an entry last used `idle` seconds ago. */
  ghost predicate Bounded(g: Settings, s: State, t: State, id: string, now: int, gap: nat)
    requires id in s.transMap
  {
    var idle := now - s.transMap[id].lastUsed;
    && 0 <= idle <= g.maxIdle + 10 + gap
    && (idle <= g.maxIdle ==> id in t.transMap)
    && (id in t.transMap ==> t.transMap[id] == s.transMap[id] && idle <= g.maxIdle + 10)
    && (id !in t.transMap ==> idle > g.maxIdle)
  }

  lemma {:induction false} TickBound(g: Settings, s: State, id: string, now: int, gap: nat, lastTick: int, clock: int)
    requires OnTime(s, g.maxIdle, lastTick, clock) && id in s.transMap
    requires clock <= now < 0x1_0000_0000 && now - lastTick <= gap
    ensures Bounded(g, s, TickStep(g, s, now), id, now, gap)
  {
    AgeIsElapsed(now, s.transMap[id].lastUsed);
  }

  lemma {:induction false} LastMoment(events: seq<Event>, gap: nat, now: int)
    requires Timely(events + [Event(Tick, now)], gap)
    ensures Timely(events, gap) && Clock(events) <= now < 0x1_0000_0000 && now - LastTick(events) <= gap
  {
    var all := events + [Event(Tick, now)];
    TimelyPrefix(all, gap);
    assert all[..|events|] == events && all[|events|].now == now;
    assert events != [] ==> all[|events| - 1] == events[|events| - 1];
  }

  /** At every tick of a timely run: a transaction used within the last `maxIdle`
      seconds stays as it is; one that is swept was idle for more than that, but for
      no more than `maxIdle` + 10 + `gap`; and after the tick none is left that was
      idle for more than `maxIdle` + 10. */
  lemma IdleBound(g: Settings, events: seq<Event>, gap: nat, now: int, id: string)
    requires Timely(events + [Event(Tick, now)], gap)
    requires id in Run(g, events).0.transMap
    ensures Bounded(g, Run(g, events).0, Step(g, Run(g, events).0, Tick, now).0, id, now, gap)
  {
    LastMoment(events, gap, now);
    RunOnTime(g, events, gap);
    TickBound(g, Run(g, events).0, id, now, gap, LastTick(events), Clock(events));
  }

  /** A sweep touches no handle but those of the transactions it erases. */
  lemma SweepLeavesOthers(g: Settings, s: State, now: int, id: string)
    requires Invariant(s) && id in s.transMap
    ensures var t := Step(g, s, Tick, now).0;
            var h := s.transMap[id].handle;
            t.handles[h] == if id in t.transMap then s.handles[h] else Handle(s.handles[h].ops, RolledBack)
  {
    var ids, h := Overdue(s, g.maxIdle, now), s.transMap[id].handle;
    if now - s.lastWake > HOUSEKEEPING {
      assert id in ids ==> Hit(s, ids, h);
      assert id !in ids ==> !Hit(s, ids, h);
    }
  }

  /** What a tick does to a named transaction: more than ten seconds after the last
      sweep, it is rolled back and erased if it was idle for more than `maxIdle` seconds,
      counted in 32 bits; in all other cases it stays as it is. */
  lemma TickExactly(g: Settings, s: State, now: int, id: string)
    requires Invariant(s) && id in s.transMap
    ensures var t := Step(g, s, Tick, now).0;
            var entry := s.transMap[id];
            && t.content == s.content && t.lastWake == (if now - s.lastWake > 10 then now else s.lastWake)
            && if now - s.lastWake > 10 && (now - entry.lastUsed) % 0x1_0000_0000 > g.maxIdle then
                 id !in t.transMap && t.handles[entry.handle].status == RolledBack
               else
                 id in t.transMap && t.transMap[id] == entry && t.handles[entry.handle] == s.handles[entry.handle]
  {
    SweepLeavesOthers(g, s, now, id);
  }

  // ------------------------------------------------------------------
  // The sweep as written is reached
  // ------------------------------------------------------------------

  /** A transaction begun at time zero and left alone, with a tick every second. */
  function Abandoned(n: nat): (events: seq<Event>)
    ensures |events| == n + 1
  {
    if n == 0 then [Event(Begin("t", true), 0)] else Abandoned(n - 1) + [Event(Tick, n)]
  }

  /** One more event keeps a run timely. */
  lemma {:induction false} TimelyMore(before: seq<Event>, e: Event, gap: nat)
    requires Timely(before, gap) && Clock(before) <= e.now && 0 <= e.now < 0x1_0000_0000
    requires e.now - LastTick(before) <= gap
    ensures Timely(before + [e], gap)
  {
    var events := before + [e];
    forall i | 0 <= i < |events| ensures events[i].now - LastTick(events[..i]) <= gap {
      TickBefore(before, e, i);
    }
    forall i, j | 0 <= i <= j < |events| ensures events[i].now <= events[j].now {
      InOrder(before, e, i, gap);
      if j < |before| { assert events[i] == before[i] && events[j] == before[j]; }
    }
  }

  lemma {:induction false} TickBefore(before: seq<Event>, e: Event, i: nat)
    requires i <= |before|
    ensures LastTick((before + [e])[..i]) == LastTick(before[..i])
  {
    assert (before + [e])[..i] == before[..i];
  }

  lemma {:induction false} InOrder(before: seq<Event>, e: Event, i: nat, gap: nat)
    requires Timely(before, gap) && Clock(before) <= e.now && i <= |before|
    ensures (before + [e])[i].now <= e.now
  {
    if i < |before| { assert before[i].now <= before[|before| - 1].now; }
  }

  lemma {:induction false} AbandonedTimes(n: nat)
    requires n < 0x1_0000_0000
    ensures Timely(Abandoned(n), 1) && LastTick(Abandoned(n)) == Clock(Abandoned(n)) == n
  {
    if n == 0 {
      assert Abandoned(0) == [] + [Event(Begin("t", true), 0)];
      TimelyMore([], Event(Begin("t", true), 0), 1);
      assert Abandoned(0)[..0] == [];
    } else {
      AbandonedTimes(n - 1);
      TimelyMore(Abandoned(n - 1), Event(Tick, n), 1);
    }
  }

  /** Up to the first sweep that finds it overdue the transaction is there, and the
      sweeps are eleven seconds apart. */
  lemma {:induction false} AbandonedState(g: Settings, n: nat)
    requires n < 11 * (g.maxIdle / 11 + 1) && n < 0x1_0000_0000
    ensures var s := Run(g, Abandoned(n)).0;
            s.transMap == map["t" := Entry(0, 0)] && s.lastWake == 11 * (n / 11)
  {
    var events := Abandoned(n);
    if n == 0 {
      assert events[..0] == [] && Run(g, []).0 == INITIAL;
      assert |"t"| == 1;
    } else {
      var before := Abandoned(n - 1);
      AbandonedState(g, n - 1);
      assert events[..n] == before;
      AbandonedTick(g, Run(g, before).0, n);
    }
  }

  lemma {:induction false} AbandonedTick(g: Settings, s: State, n: nat)
    requires 0 < n < 11 * (g.maxIdle / 11 + 1) && n < 0x1_0000_0000
    requires s.transMap == map["t" := Entry(0, 0)] && s.lastWake == 11 * ((n - 1) / 11)
    ensures var t := TickStep(g, s, n);
            t.transMap == map["t" := Entry(0, 0)] && t.lastWake == 11 * (n / 11)
  {
    AgeIsElapsed(n, 0);
    if n - s.lastWake > HOUSEKEEPING {
      assert n == 11 * (n / 11) && n <= g.maxIdle;
      assert Overdue(s, g.maxIdle, n) == {};
    }
  }

  /** A run with a tick every second comes to a sweep that as written is undefined. */
  lemma UndefinedSweepIsReached(g: Settings) returns (events: seq<Event>, now: int)
    requires g.maxIdle < 0xFFFF_0000
    ensures Timely(events + [Event(Tick, now)], 1)
    ensures var s := Run(g, events).0;
            now - s.lastWake > 10 && Overdue(s, g.maxIdle, now) == {"t"}
            && SweepAsWritten(s, ["t"], g.maxIdle, now) == Undefined
  {
    var n: nat := 11 * (g.maxIdle / 11 + 1);
    events, now := Abandoned(n - 1), n;
    AbandonedTimes(n);
    AbandonedState(g, n - 1);
    AgeIsElapsed(n, 0);
    assert Abandoned(n) == events + [Event(Tick, n)];
    assert (n - 1) / 11 == g.maxIdle / 11;
  }
}
