/** What holds over every run of the commands of Transactions. */
module TransactionRuns {
  import opened Transactions

  // ------------------------------------------------------------------
  // One command
  // ------------------------------------------------------------------

  /** A step keeps the invariant, leaves finished handles alone, and is the step of
      the simple machine, with the same response. */
  ghost predicate Sound(g: Settings, s: State, c: Command, now: int)
    requires Shaped(s)
  {
    var r := Step(g, s, c, now);
    && Invariant(r.0) && Finished(s, r.0)
    && SpecStep(g, Abstract(s), c, now) == (Abstract(r.0), r.1)
  }

  lemma Unchanged(s: State)
    ensures Finished(s, s)
  {}

  lemma BeginSound(g: Settings, s: State, c: Command, now: int)
    requires Invariant(s) && c.Begin?
    ensures Sound(g, s, c, now)
  {
    Unchanged(s);
    if c.id != "" {
      if c.id in s.transMap {
        TouchKeeps(s, c.id, now);
        TouchAbstract(s, c.id, now);
      } else if c.created {
        BeginNew(s, c.id, now);
      }
    }
  }

  lemma {:induction false} BeginNew(s: State, id: string, now: int)
    requires Invariant(s) && id !in s.transMap
    ensures var t := Create(s).(transMap := s.transMap[id := Entry(|s.handles|, now)]);
            Invariant(t) && Finished(s, t) && Abstract(t) == Abstract(s).(open := OpenOf(s)[id := Open([], now)])
  {
    CreateKeeps(s);
    ErasedReplayed(Create(s), s.transMap[id := Entry(|s.handles|, now)]);
    BeginMapped(s, Create(s).(transMap := s.transMap[id := Entry(|s.handles|, now)]), id, now);
  }

  lemma {:induction false} BeginMapped(s: State, t: State, id: string, now: int)
    requires Mapped(s) && id !in s.transMap && t.transMap == s.transMap[id := Entry(|s.handles|, now)]
    requires t.handles == s.handles + [Handle([], Live)]
    ensures Mapped(t) && OpenOf(t) == OpenOf(s)[id := Open([], now)]
  {
    assert t.handles[|s.handles|] == Handle([], Live);
    assert forall jd :: jd in s.transMap ==> t.handles[s.transMap[jd].handle] == s.handles[s.transMap[jd].handle];
  }

  lemma InsertImplicitSound(g: Settings, s: State, c: Command, now: int)
    requires Invariant(s) && c.Insert? && c.id == ""
    ensures Sound(g, s, c, now)
  {
    Unchanged(s);
    if c.docid != "" && c.created {
      if Oversized(c.doc, g.maxPosition) {
        if g.leaky {
          CreateKeeps(s);
          CreateAbstract(s);
        } else {
          CreateRolledBack(s);
        }
      } else {
        var op := Put(c.docid, Store(c.doc));
        ImplicitKeeps(s, op);
        ImplicitAbstract(s, op);
      }
    }
  }

  lemma {:induction false} CreateRolledBack(s: State)
    requires Invariant(s)
    ensures var t := RollBackHandle(Create(s), |s.handles|);
            Invariant(t) && Finished(s, t) && Abstract(t) == Abstract(s)
  {
    var t := RollBackHandle(Create(s), |s.handles|);
    assert |t.handles| == |s.handles| + 1 && t.handles[|s.handles|].status == RolledBack;
    assert forall h :: 0 <= h < |s.handles| ==> t.handles[h] == s.handles[h];
    ImplicitMapped(s, t);
    KeepsReplayed(s, t);
  }

  /** An operation added to a named transaction. */
  lemma {:induction false} AddSound(s: State, id: string, op: Op, now: int)
    requires Invariant(s) && id in s.transMap
    ensures var t := Change(Touch(s, id, now), s.transMap[id].handle, op);
            Invariant(t) && Finished(s, t) && Abstract(t) == Adds(Abstract(s), id, op, now)
  {
    var a, h := Touch(s, id, now), s.transMap[id].handle;
    TouchKeeps(s, id, now);
    TouchAbstract(s, id, now);
    ChangeKeeps(a, h, op);
    ChangeAbstract(a, id, op);
    FinishedTransitive(s, a, Change(a, h, op));
    AddsTwice(OpenOf(s), id, op, now);
  }

  lemma {:induction false} AddsTwice(o: map<string, Open>, id: string, op: Op, now: int)
    requires id in o
    ensures var p := o[id := Open(o[id].ops, now)];
            p[id := Open(p[id].ops + [op], p[id].lastUsed)] == o[id := Open(o[id].ops + [op], now)]
  {}

  lemma InsertNamedSound(g: Settings, s: State, c: Command, now: int)
    requires Invariant(s) && c.Insert? && c.id != ""
    ensures Sound(g, s, c, now)
  {
    Unchanged(s);
    if c.docid != "" && c.id in s.transMap {
      if Oversized(c.doc, g.maxPosition) {
        TouchKeeps(s, c.id, now);
        TouchAbstract(s, c.id, now);
      } else {
        AddSound(s, c.id, Put(c.docid, Store(c.doc)), now);
      }
    }
  }

  lemma DeleteSound(g: Settings, s: State, c: Command, now: int)
    requires Invariant(s) && c.Delete?
    ensures Sound(g, s, c, now)
  {
    Unchanged(s);
    if c.docid != "" && c.docid in s.content {
      if c.id == "" {
        if c.created {
          ImplicitKeeps(s, Remove(c.docid));
          ImplicitAbstract(s, Remove(c.docid));
        }
      } else if c.id in s.transMap {
        AddSound(s, c.id, Remove(c.docid), now);
      }
    }
  }

  lemma CommitSound(g: Settings, s: State, c: Command, now: int)
    requires Invariant(s) && c.Commit?
    ensures Sound(g, s, c, now)
  {
    Unchanged(s);
    if c.id != "" && c.id in s.transMap { CommitKeeps(s, c.id); }
  }

  lemma DiscardSound(g: Settings, s: State, c: Command, now: int)
    requires Invariant(s) && (c.Rollback? || c.Close?)
    ensures Sound(g, s, c, now)
  {
    Unchanged(s);
    if c.Close? {
      DiscardKeeps(s, s.transMap.Keys);
      DiscardOthers(s, s.transMap.Keys);
    } else if c.id != "" && c.id in s.transMap {
      DiscardKeeps(s, {c.id});
      DiscardOthers(s, {c.id});
    }
  }

  lemma {:induction false} TickSound(g: Settings, s: State, c: Command, now: int)
    requires Invariant(s) && c.Tick?
    ensures Sound(g, s, c, now)
  {
    Unchanged(s);
    if now - s.lastWake > HOUSEKEEPING {
      var ids := Overdue(s, g.maxIdle, now);
      var t := Discard(s, ids);
      DiscardKeeps(s, ids);
      DiscardOthers(s, ids);
      WokenKeeps(s, t, now);
      KeptOpen(s, g.maxIdle, now);
    }
  }

  lemma {:induction false} KeptOpen(s: State, maxIdle: nat, now: int)
    requires Shaped(s)
    ensures OpenOf(s) - Overdue(s, maxIdle, now) ==
            map id | id in OpenOf(s) && Age(now, OpenOf(s)[id].lastUsed) <= maxIdle :: OpenOf(s)[id]
  {}

  lemma {:induction false} WokenKeeps(s: State, t: State, now: int)
    requires Invariant(t) && Finished(s, t)
    ensures var u := t.(lastWake := now);
            Invariant(u) && Finished(s, u) && Abstract(u) == Abstract(t).(lastWake := now)
  {}

  lemma StepSound(g: Settings, s: State, c: Command, now: int)
    requires Invariant(s)
    ensures Sound(g, s, c, now)
  {
    match c
    case Begin(_, _) => BeginSound(g, s, c, now);
    case Insert(_, id, _, _) =>
      if id == "" { InsertImplicitSound(g, s, c, now); } else { InsertNamedSound(g, s, c, now); }
    case Delete(_, _, _) => DeleteSound(g, s, c, now);
    case Commit(_) => CommitSound(g, s, c, now);
    case Rollback(_) => DiscardSound(g, s, c, now);
    case Close => DiscardSound(g, s, c, now);
    case Tick => TickSound(g, s, c, now);
  }

  // ------------------------------------------------------------------
  // Runs
  // ------------------------------------------------------------------

  datatype Event = Event(command: Command, now: int)

  function Run(g: Settings, events: seq<Event>): (r: (State, seq<Response>))
    ensures Shaped(r.0) && |r.1| == |events|
  {
    if events == [] then (INITIAL, [])
    else
      var before := Run(g, events[..|events| - 1]);
      var e := events[|events| - 1];
      StepShaped(g, before.0, e.command, e.now);
      var r := Step(g, before.0, e.command, e.now);
      (r.0, before.1 + [r.1])
  }

  function SpecRun(g: Settings, events: seq<Event>): (Spec, seq<Response>) {
    if events == [] then (Spec(map[], map[], 0), [])
    else
      var before := SpecRun(g, events[..|events| - 1]);
      var e := events[|events| - 1];
      var r := SpecStep(g, before.0, e.command, e.now);
      (r.0, before.1 + [r.1])
  }

  /** Every run keeps the invariant, and answers and leaves the content as the machine
      without handles does. */
  lemma {:induction false} RunRefines(g: Settings, events: seq<Event>)
    ensures Invariant(Run(g, events).0)
    ensures SpecRun(g, events) == (Abstract(Run(g, events).0), Run(g, events).1)
  {
    if events != [] {
      var n := |events| - 1;
      RunRefines(g, events[..n]);
      StepSound(g, Run(g, events[..n]).0, events[n].command, events[n].now);
    }
  }

  /** Over a run, a handle that is committed or rolled back never changes again. */
  lemma {:induction false} FinishedForGood(g: Settings, events: seq<Event>, n: nat)
    requires n <= |events|
    ensures Finished(Run(g, events[..n]).0, Run(g, events).0)
  {
    var s := Run(g, events[..n]).0;
    if n == |events| {
      assert events[..n] == events;
      Unchanged(s);
    } else {
      var m := |events| - 1;
      var t := Run(g, events[..m]).0;
      FinishedForGood(g, events[..m], n);
      assert events[..m][..n] == events[..n];
      RunRefines(g, events[..m]);
      StepSound(g, t, events[m].command, events[m].now);
      FinishedTransitive(s, t, Run(g, events).0);
    }
  }

  /** Closing an index rolls back all its named transactions and empties the map. */
  lemma CloseClears(g: Settings, s: State, now: int)
    requires Invariant(s)
    ensures var t := Step(g, s, Close, now).0;
            && t.transMap == map[] && t.content == s.content
            && forall id :: id in s.transMap ==>
                 var h := s.transMap[id].handle; t.handles[h] == Handle(s.handles[h].ops, RolledBack)
  {
    var t := Discard(s, s.transMap.Keys);
    forall id | id in s.transMap ensures t.handles[s.transMap[id].handle].status == RolledBack {
      assert Hit(s, s.transMap.Keys, s.transMap[id].handle);
    }
  }

  // ------------------------------------------------------------------
  // Forgotten transactions
  // ------------------------------------------------------------------

  /** A live transaction nobody can reach any more. */
  ghost predicate Orphan(s: State, h: int) {
    0 <= h < |s.handles| && s.handles[h].status == Live && forall id :: id in s.transMap ==> s.transMap[id].handle != h
  }

  /** The command leaves the implicit transaction of a refused document behind. */
  predicate Leaks(g: Settings, c: Command) {
    g.leaky && c.Insert? && c.docid != "" && c.id == "" && c.created && Oversized(c.doc, g.maxPosition)
  }

  ghost predicate OrphansFrom(s: State, t: State, more: bool) {
    forall h :: Orphan(t, h) <==> Orphan(s, h) || (more && h == |s.handles|)
  }

  lemma {:induction false} OrphanDiscard(s: State, ids: set<string>)
    requires Mapped(s)
    ensures OrphansFrom(s, Discard(s, ids), false)
  {
    var t := Discard(s, ids);
    forall h ensures Orphan(t, h) <==> Orphan(s, h) {
      if Orphan(t, h) {
        forall id | id in s.transMap ensures s.transMap[id].handle != h {
          assert id !in ids ==> id in t.transMap;
          assert id in ids && s.transMap[id].handle == h ==> Hit(s, ids, h);
        }
      }
    }
  }

  lemma {:induction false} OrphanCommit(s: State, id: string)
    requires Mapped(s) && id in s.transMap
    ensures OrphansFrom(s, CommitHandle(s, s.transMap[id].handle).(transMap := s.transMap - {id}), false)
  {
    var t := CommitHandle(s, s.transMap[id].handle).(transMap := s.transMap - {id});
    forall h ensures Orphan(t, h) <==> Orphan(s, h) {
      if Orphan(t, h) {
        forall jd | jd in s.transMap ensures s.transMap[jd].handle != h {
          if jd != id { assert jd in t.transMap; }
        }
      }
    }
  }

  lemma {:induction false} OrphanNew(s: State, t: State, live: bool)
    requires Mapped(s) && t.transMap == s.transMap && |t.handles| == |s.handles| + 1
    requires forall h :: 0 <= h < |s.handles| ==> t.handles[h] == s.handles[h]
    requires t.handles[|s.handles|].status == Live <==> live
    ensures OrphansFrom(s, t, live)
  {
    forall h ensures Orphan(t, h) <==> Orphan(s, h) || (live && h == |s.handles|) {}
  }

  lemma {:induction false} OrphanSame(s: State, t: State)
    requires Mapped(s) && t.transMap.Keys == s.transMap.Keys && |t.handles| == |s.handles|
    requires forall id :: id in s.transMap ==> t.transMap[id].handle == s.transMap[id].handle
    requires forall h :: 0 <= h < |s.handles| ==> t.handles[h].status == s.handles[h].status
    ensures OrphansFrom(s, t, false)
  {
    forall h ensures Orphan(t, h) <==> Orphan(s, h) {
      assert forall id :: id in t.transMap ==> id in s.transMap.Keys;
      assert forall id :: id in s.transMap ==> id in t.transMap.Keys;
    }
  }

  lemma {:induction false} OrphanInsert(g: Settings, s: State, c: Command, now: int)
    requires Mapped(s) && c.Insert?
    ensures OrphansFrom(s, Step(g, s, c, now).0, Leaks(g, c))
  {
    var t := Step(g, s, c, now).0;
    if c.docid == "" || (c.id == "" && !c.created) || (c.id != "" && c.id !in s.transMap) {
    } else if c.id == "" {
      if Oversized(c.doc, g.maxPosition) {
        OrphanNew(s, t, g.leaky);
      } else {
        OrphanImplicit(s, Put(c.docid, Store(c.doc)));
      }
    } else {
      OrphanSame(s, t);
    }
  }

  lemma {:induction false} OrphanImplicit(s: State, op: Op)
    requires Mapped(s)
    ensures OrphansFrom(s, Implicit(s, op), false)
  {
    ImplicitOthers(s, op);
    OrphanNew(s, Implicit(s, op), false);
  }

  lemma {:induction false} OrphanDelete(g: Settings, s: State, c: Command, now: int)
    requires Mapped(s) && c.Delete?
    ensures OrphansFrom(s, Step(g, s, c, now).0, false)
  {
    var t := Step(g, s, c, now).0;
    if c.docid == "" || c.docid !in s.content || (c.id == "" && !c.created) || (c.id != "" && c.id !in s.transMap) {
    } else if c.id == "" {
      OrphanImplicit(s, Remove(c.docid));
    } else {
      OrphanSame(s, t);
    }
  }

  lemma {:induction false} OrphanBegin(g: Settings, s: State, c: Command, now: int)
    requires Mapped(s) && c.Begin?
    ensures OrphansFrom(s, Step(g, s, c, now).0, false)
  {
    var t := Step(g, s, c, now).0;
    if c.id != "" && c.id in s.transMap {
      OrphanSame(s, t);
    } else if c.id != "" && c.created {
      forall h ensures Orphan(t, h) <==> Orphan(s, h) {
        if Orphan(t, h) {
          assert t.transMap[c.id].handle == |s.handles| != h;
          assert forall jd :: jd in s.transMap ==> t.transMap[jd] == s.transMap[jd];
        }
      }
    }
  }

  lemma OrphanStep(g: Settings, s: State, c: Command, now: int)
    requires Mapped(s)
    ensures OrphansFrom(s, Step(g, s, c, now).0, Leaks(g, c))
  {
    match c
    case Begin(_, _) => OrphanBegin(g, s, c, now);
    case Insert(_, _, _, _) => OrphanInsert(g, s, c, now);
    case Delete(_, _, _) => OrphanDelete(g, s, c, now);
    case Commit(id) => if id != "" && id in s.transMap { OrphanCommit(s, id); }
    case Rollback(id) => if id != "" && id in s.transMap { OrphanDiscard(s, {id}); }
    case Close => OrphanDiscard(s, s.transMap.Keys);
    case Tick => if now - s.lastWake > HOUSEKEEPING { OrphanDiscard(s, Overdue(s, g.maxIdle, now)); }
  }

  ghost predicate HasOrphan(s: State) { exists h :: Orphan(s, h) }

  predicate Leaked(g: Settings, events: seq<Event>) {
    exists i :: 0 <= i < |events| && Leaks(g, events[i].command)
  }

  lemma {:induction false} LeakedLast(g: Settings, events: seq<Event>)
    requires events != []
    ensures Leaked(g, events) <==> Leaked(g, events[..|events| - 1]) || Leaks(g, events[|events| - 1].command)
  {
    var init := events[..|events| - 1];
    if Leaked(g, init) {
      var i :| 0 <= i < |init| && Leaks(g, init[i].command);
      assert events[i] == init[i];
    }
    if Leaked(g, events) && !Leaks(g, events[|events| - 1].command) {
      var i :| 0 <= i < |events| && Leaks(g, events[i].command);
      assert init[i] == events[i];
    }
  }

  lemma {:induction false} OrphanLast(s: State, t: State, more: bool)
    requires OrphansFrom(s, t, more)
    ensures HasOrphan(t) <==> HasOrphan(s) || more
  {
    if HasOrphan(s) {
      var h :| Orphan(s, h);
      assert Orphan(t, h);
    }
    if more { assert Orphan(t, |s.handles|); }
  }

  /** The map holds exactly the live transactions if and only if no implicit
      transaction was left behind on the way. */
  lemma {:induction false} MapHoldsTheLive(g: Settings, events: seq<Event>)
    ensures HasOrphan(Run(g, events).0) <==> Leaked(g, events)
  {
    if events != [] {
      var n := |events| - 1;
      var before, e := events[..n], events[n];
      MapHoldsTheLive(g, before);
      RunRefines(g, before);
      LeakedLast(g, events);
      OrphanStep(g, Run(g, before).0, e.command, e.now);
      OrphanLast(Run(g, before).0, Run(g, events).0, Leaks(g, e.command));
    }
  }

  /** It happens: a document whose position is negative, which counts as very high. */
  lemma LeakHappens(g: Settings, now: int)
    requires g.leaky && g.maxPosition < 0xFFFF_FFFF
    ensures var e := Event(Insert("d", "", true, Document([], [Term("", "", -1)], [])), now);
            Leaked(g, [e]) && HasOrphan(Run(g, [e]).0)
  {
    var doc := Document([], [Term("", "", -1)], []);
    var e := Event(Insert("d", "", true, doc), now);
    assert Unsigned(doc.forward[0].position) == 0xFFFF_FFFF;
    assert Oversized(doc, g.maxPosition);
    assert "d" != "" by { assert |"d"| == 1; }
    assert Leaks(g, [e][0].command);
    MapHoldsTheLive(g, [e]);
  }

  /** After an index is closed its map is empty, and a transaction is still live if and
      only if an implicit one was left behind before. */
  lemma ClosedForGood(g: Settings, events: seq<Event>, now: int)
    ensures var s := Run(g, events + [Event(Close, now)]).0;
            && s.transMap == map[] && s.content == Run(g, events).0.content
            && ((exists h :: 0 <= h < |s.handles| && s.handles[h].status == Live) <==> Leaked(g, events))
  {
    var all := events + [Event(Close, now)];
    var s := Run(g, all).0;
    assert all[..|events|] == events;
    RunRefines(g, events);
    CloseClears(g, Run(g, events).0, now);
    LeakedLast(g, all);
    MapHoldsTheLive(g, all);
    if h :| 0 <= h < |s.handles| && s.handles[h].status == Live { assert Orphan(s, h); }
    if HasOrphan(s) {
      var h :| Orphan(s, h);
      assert s.handles[h].status == Live;
    }
  }
}
