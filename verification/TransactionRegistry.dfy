/** The commands of Transactions as they work on the fields of an index context. */
module TransactionRegistry {
  import opened Transactions

  // ------------------------------------------------------------------
  // Token positions
  // ------------------------------------------------------------------

  /** The loop over the terms of a document: those in range are added, of the others
      the highest position is remembered. */
  method AddTerms(ts: seq<Term>, max: nat, start: nat) returns (added: seq<Posting>, maxPos: nat)
    requires start == 0 || start > max
    ensures !OutOfRange(ts, max) ==> added == Postings(ts) && maxPos == start
    ensures OutOfRange(ts, max) ==> maxPos > max
    ensures maxPos >= start
    ensures forall i :: 0 <= i < |ts| && Unsigned(ts[i].position) > max ==> Unsigned(ts[i].position) <= maxPos
  {
    added, maxPos := [], start;
    var it := 0;
    while it != |ts|
      invariant 0 <= it <= |ts| && maxPos >= start
      invariant (forall i :: 0 <= i < it ==> Unsigned(ts[i].position) <= max) ==>
                  added == Postings(ts[..it]) && maxPos == start
      invariant forall i :: 0 <= i < it && Unsigned(ts[i].position) > max ==> max < Unsigned(ts[i].position) <= maxPos
      decreases |ts| - it
    {
      var pos := Unsigned(ts[it].position);
      assert ts[..it + 1][..it] == ts[..it];
      if pos > max {
        if pos > maxPos { maxPos := pos; }
      } else {
        added := added + [Posting(ts[it].kind, ts[it].value, pos)];
      }
      it := it + 1;
    }
    assert ts[..it] == ts;
  }

  // ------------------------------------------------------------------
  // One by one
  // ------------------------------------------------------------------

  /** Rolling back and erasing one entry more. */
  lemma {:induction false} DiscardMore(s: State, done: set<string>, id: string)
    requires Shaped(s) && id in s.transMap && id !in done
    ensures var t := Discard(s, done);
            RollBackHandle(t, s.transMap[id].handle).(transMap := t.transMap - {id}) == Discard(s, done + {id})
  {
    var t := Discard(s, done);
    var h := s.transMap[id].handle;
    var u := RollBackHandle(t, h);
    forall k | 0 <= k < |s.handles| ensures u.handles[k] == Discard(s, done + {id}).handles[k] {
      HitMore(s, done, id, k);
    }
    assert u.handles == Discard(s, done + {id}).handles;
    assert t.transMap - {id} == s.transMap - (done + {id});
  }

  lemma {:induction false} HitMore(s: State, done: set<string>, id: string, h: int)
    requires id in s.transMap
    ensures Hit(s, done + {id}, h) <==> Hit(s, done, h) || s.transMap[id].handle == h
  {
    if Hit(s, done, h) {
      var jd :| jd in done && jd in s.transMap && s.transMap[jd].handle == h;
      assert jd in done + {id};
    }
    if s.transMap[id].handle == h { assert id in done + {id}; }
  }

  lemma {:induction false} DiscardNone(s: State)
    ensures Discard(s, {}) == s
  {
    assert s.transMap - {} == s.transMap;
    assert Discard(s, {}).handles == s.handles;
  }

  lemma {:induction false} WokenDiscard(s: State, maxIdle: nat, now: int)
    ensures var t := s.(lastWake := now);
            Discard(t, Overdue(t, maxIdle, now)) == Discard(s, Overdue(s, maxIdle, now)).(lastWake := now)
  {
    var t, ids := s.(lastWake := now), Overdue(s, maxIdle, now);
    assert Overdue(t, maxIdle, now) == ids;
    forall h | 0 <= h < |s.handles| ensures Discard(t, ids).handles[h] == Discard(s, ids).handles[h] {
      assert Hit(t, ids, h) <==> Hit(s, ids, h);
    }
    assert Discard(t, ids).handles == Discard(s, ids).handles;
  }

  /** The keys of a map, each once. */
  method KeysOf(m: map<string, Entry>) returns (ids: seq<string>)
    ensures (forall id :: id in ids <==> id in m) && forall i, j :: 0 <= i < j < |ids| ==> ids[i] != ids[j]
  {
    ids := [];
    var rest := m.Keys;
    while rest != {}
      invariant rest <= m.Keys
      invariant forall id :: id in ids <==> id in m.Keys && id !in rest
      invariant forall i, j :: 0 <= i < j < |ids| ==> ids[i] != ids[j]
      decreases |rest|
    {
      var id :| id in rest;
      ids := ids + [id];
      rest := rest - {id};
    }
  }

  // ------------------------------------------------------------------
  // The index
  // ------------------------------------------------------------------

  class Index {
    const settings: Settings
    var transMap: map<string, Entry>
    var handles: seq<Handle>
    var content: Content
    var commits: seq<int>
    var lastWake: int

    ghost function View(): State
      reads this
    {
      State(transMap, handles, content, commits, lastWake)
    }

    constructor (g: Settings)
      ensures View() == INITIAL && settings == g
    {
      settings := g;
      transMap, handles, content, commits, lastWake := map[], [], map[], [], 0;
    }

    method CreateTransaction() returns (h: int)
      modifies this
      ensures View() == Create(old(View())) && h == |old(handles)|
    {
      h := |handles|;
      handles := handles + [Handle([], Live)];
    }

    /** -1 stands for the null pointer. */
    method GetTransaction(id: string, now: int) returns (h: int)
      requires Shaped(View())
      modifies this
      ensures if id in old(transMap) then View() == Touch(old(View()), id, now) && h == old(transMap[id].handle)
              else View() == old(View()) && h == -1
    {
      if id !in transMap { return -1; }
      transMap := transMap[id := transMap[id].(lastUsed := now)];
      h := transMap[id].handle;
    }

    method DeleteTransaction(id: string)
      modifies this
      ensures View() == old(View()).(transMap := old(transMap) - {id})
    {
      if id in transMap {
        transMap := transMap - {id};
      } else {
        assert transMap - {id} == transMap;
      }
    }

    method AddOperation(h: int, op: Op)
      requires 0 <= h < |handles|
      modifies this
      ensures View() == Change(old(View()), h, op)
    {
      handles := handles[h := Handle(handles[h].ops + [op], handles[h].status)];
    }

    method CommitTransaction(h: int)
      requires 0 <= h < |handles|
      modifies this
      ensures View() == CommitHandle(old(View()), h)
    {
      content := Replay(content, handles[h].ops);
      handles := handles[h := Handle(handles[h].ops, Committed)];
      commits := commits + [h];
    }

    method RollBackTransaction(h: int)
      requires 0 <= h < |handles|
      modifies this
      ensures View() == RollBackHandle(old(View()), h)
    {
      handles := handles[h := Handle(handles[h].ops, RolledBack)];
    }

    method BeginCmd(id: string, created: bool, now: int) returns (r: Response)
      requires Shaped(View())
      modifies this
      ensures (View(), r) == Step(settings, old(View()), Begin(id, created), now)
    {
      if id == "" { return NoId; }
      if id !in transMap {
        if !created { return NotCreated; }
        var h := CreateTransaction();
        transMap := transMap[id := Entry(h, now)];
      } else {
        transMap := transMap[id := transMap[id].(lastUsed := now)];
      }
      r := Done;
    }

    method InsertCmd(docid: string, id: string, created: bool, doc: Document, now: int) returns (r: Response)
      requires Shaped(View())
      modifies this
      ensures (View(), r) == Step(settings, old(View()), Insert(docid, id, created, doc), now)
    {
      if docid == "" { return NoDocid; }
      var h;
      if id == "" {
        if !created { return NotCreated; }
        h := CreateTransaction();
      } else {
        h := GetTransaction(id, now);
        if h == -1 { return NoTransaction; }
      }
      var forward, maxPos := AddTerms(doc.forward, settings.maxPosition, 0);
      var search;
      search, maxPos := AddTerms(doc.search, settings.maxPosition, maxPos);
      if maxPos > settings.maxPosition {
        if id == "" && !settings.leaky { RollBackTransaction(h); }
        return TooBig;
      }
      AddOperation(h, Put(docid, Stored(doc.fields, forward, search)));
      if id == "" { CommitTransaction(h); }
      r := Done;
    }

    method DeleteCmd(docid: string, id: string, created: bool, now: int) returns (r: Response)
      requires Shaped(View())
      modifies this
      ensures (View(), r) == Step(settings, old(View()), Delete(docid, id, created), now)
    {
      if docid == "" { return NoDocid; }
      if docid !in content { return NoDocument; }
      var h;
      if id == "" {
        if !created { return NotCreated; }
        h := CreateTransaction();
      } else {
        h := GetTransaction(id, now);
        if h == -1 { return NoTransaction; }
      }
      AddOperation(h, Remove(docid));
      if id == "" { CommitTransaction(h); }
      r := Done;
    }

    method CommitCmd(id: string, now: int) returns (r: Response)
      requires Shaped(View())
      modifies this
      ensures (View(), r) == Step(settings, old(View()), Commit(id), now)
    {
      if id == "" { return NoId; }
      var h := GetTransaction(id, now);
      if h == -1 { return NoTransaction; }
      CommitTransaction(h);
      DeleteTransaction(id);
      r := Done;
      assert transMap == old(transMap) - {id};
    }

    method RollbackCmd(id: string, now: int) returns (r: Response)
      requires Shaped(View())
      modifies this
      ensures (View(), r) == Step(settings, old(View()), Rollback(id), now)
    {
      if id == "" { return NoId; }
      var h := GetTransaction(id, now);
      if h == -1 { return NoTransaction; }
      RollBackTransaction(h);
      DeleteTransaction(id);
      r := Done;
      DiscardNone(old(View()));
      DiscardMore(old(View()), {}, id);
      assert {} + {id} == {id} && transMap == old(transMap) - {id};
    }

    /** Closing: the transactions are listed, then looked up, rolled back and deleted. */
    method AbortRunningTransactions(now: int)
      requires Shaped(View())
      modifies this
      ensures (View(), Done) == Step(settings, old(View()), Close, now)
    {
      ghost var s := View();
      var ids := KeysOf(transMap);
      ghost var done: set<string> := {};
      DiscardNone(s);
      var i := 0;
      while i != |ids|
        invariant 0 <= i <= |ids| && View() == Discard(s, done)
        invariant forall id :: id in done <==> id in ids[..i]
        decreases |ids| - i
      {
        var id := ids[i];
        AbortOne(id, s, done, now);
        done := done + {id};
        assert ids[..i + 1] == ids[..i] + [id];
        i := i + 1;
      }
      assert ids[..i] == ids;
      assert done == s.transMap.Keys;
    }

    method AbortOne(id: string, ghost s: State, ghost done: set<string>, now: int)
      requires Shaped(s) && View() == Discard(s, done) && id in s.transMap && id !in done
      modifies this
      ensures View() == Discard(s, done + {id})
    {
      DiscardMore(s, done, id);
      ghost var m := transMap;
      var transaction := GetTransaction(id, now);
      if transaction != -1 {
        RollBackTransaction(transaction);
        DeleteTransaction(id);
        assert transMap == m - {id};
      }
    }

    /** The sweep, going on with the entry behind an erased one. */
    method TerminateIdleTransactions(now: int)
      requires Shaped(View())
      modifies this
      ensures View() == Discard(old(View()), Overdue(old(View()), settings.maxIdle, now))
    {
      ghost var s := View();
      var ids := KeysOf(transMap);
      ghost var done: set<string> := {};
      DiscardNone(s);
      var i := 0;
      while i != |ids|
        invariant 0 <= i <= |ids| && View() == Discard(s, done)
        invariant forall id :: id in done <==> id in ids[..i] && id in Overdue(s, settings.maxIdle, now)
        decreases |ids| - i
      {
        var id := ids[i];
        assert ids[..i + 1] == ids[..i] + [id];
        var age := Age(now, transMap[id].lastUsed);
        if age > settings.maxIdle {
          DiscardMore(s, done, id);
          RollBackTransaction(transMap[id].handle);
          transMap := transMap - {id};
          done := done + {id};
        }
        i := i + 1;
      }
      assert ids[..i] == ids;
      assert done == Overdue(s, settings.maxIdle, now);
    }

    method OnTimer(now: int)
      requires Shaped(View())
      modifies this
      ensures (View(), Done) == Step(settings, old(View()), Tick, now)
    {
      if now - lastWake > HOUSEKEEPING {
        ghost var s := View();
        lastWake := now;
        WokenDiscard(s, settings.maxIdle, now);
        TerminateIdleTransactions(now);
      }
    }
  }
}
