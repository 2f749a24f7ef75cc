/** What the commands of an index do to its content, on the fields of the documents
    (src.old/document.cpp, src.old/transaction.cpp). */
module TransactionLaws {
  import opened Transactions
  import opened TransactionRuns

  // ------------------------------------------------------------------
  // Replaying operations
  // ------------------------------------------------------------------

  /** No operation from `from` on is about the document. */
  ghost predicate Untouched(ops: seq<Op>, from: nat, docid: string) {
    forall j :: from <= j < |ops| ==> ops[j].docid != docid
  }

  /** Operation `i` is the last about the document. */
  ghost predicate LastAbout(ops: seq<Op>, i: nat, docid: string) {
    i < |ops| && ops[i].docid == docid && Untouched(ops, i + 1, docid)
  }

  /** The entries of a document are the same. */
  predicate SameAt(a: Content, b: Content, docid: string) {
    (docid in a <==> docid in b) && (docid in a && docid in b ==> a[docid] == b[docid])
  }

  /** What is at a document after operation `op` on it. */
  predicate HoldsAfter(content: Content, op: Op) {
    match op
    case Put(docid, doc) => docid in content && content[docid] == doc
    case Remove(docid) => docid !in content
  }

  /** Replaying operations leaves a document as it was if none is about it, and otherwise
      as the last one about it says. */
  lemma {:induction false} ReplayMeaning(content: Content, ops: seq<Op>, docid: string)
    ensures Untouched(ops, 0, docid) ==> SameAt(Replay(content, ops), content, docid)
    ensures forall i: nat :: LastAbout(ops, i, docid) ==> HoldsAfter(Replay(content, ops), ops[i])
  {
    if ops != [] {
      var n := |ops| - 1;
      var before := ops[..n];
      ReplayMeaning(content, before, docid);
      if ops[n].docid != docid {
        assert SameAt(Replay(content, ops), Replay(content, before), docid);
        forall i: nat | LastAbout(ops, i, docid) ensures HoldsAfter(Replay(content, ops), ops[i]) {
          assert before[i] == ops[i] && LastAbout(before, i, docid);
        }
      } else {
        forall i: nat | LastAbout(ops, i, docid) ensures i == n {}
      }
    }
  }

  // ------------------------------------------------------------------
  // Single commands
  // ------------------------------------------------------------------

  /** A negative position counts as that many below 2^32. */
  function Place(p: Position): int { if p < 0 then p as int + 0x1_0000_0000 else p as int }

  /** The postings are those of the terms, one by one. */
  ghost predicate Lists(ps: seq<Posting>, ts: seq<Term>) {
    && |ps| == |ts|
    && forall i :: 0 <= i < |ts| ==>
         && ps[i].kind == ts[i].kind && ps[i].value == ts[i].value && ps[i].position == Place(ts[i].position)
  }

  /** The stored document is this one: forward terms in the forward index, search terms
      in the search index. */
  ghost predicate IsStored(st: Stored, doc: Document) {
    st.fields == doc.fields && Lists(st.forward, doc.forward) && Lists(st.search, doc.search)
  }

  /** All positions are between zero and `max`, as unsigned numbers. */
  ghost predicate Within(ts: seq<Term>, max: nat) {
    forall i :: 0 <= i < |ts| ==> Place(ts[i].position) <= max
  }

  ghost predicate Fits(doc: Document, max: nat) { Within(doc.forward, max) && Within(doc.search, max) }

  lemma StoreIsStored(doc: Document)
    ensures IsStored(Store(doc), doc)
  {}

  lemma WithinExactly(ts: seq<Term>, max: nat)
    ensures Within(ts, max) <==> !OutOfRange(ts, max)
  {
    if !OutOfRange(ts, max) {
      forall i | 0 <= i < |ts| ensures Unsigned(ts[i].position) <= max {}
    }
  }

  lemma FitsExactly(doc: Document, max: nat)
    ensures Fits(doc, max) <==> !Oversized(doc, max)
  {
    WithinExactly(doc.forward, max);
    WithinExactly(doc.search, max);
  }

  /** Inserting without a transaction id: the response, and the content. */
  lemma InsertAlone(g: Settings, s: State, docid: string, created: bool, doc: Document, now: int)
    requires Shaped(s)
    ensures var (t, r) := Step(g, s, Insert(docid, "", created, doc), now);
            && (docid == "" <==> r == NoDocid)
            && (docid != "" && !created <==> r == NotCreated)
            && (docid != "" && created && !Fits(doc, g.maxPosition) <==> r == TooBig)
            && (docid != "" && created && Fits(doc, g.maxPosition) <==> r == Done)
            && (r == Done ==> docid in t.content && IsStored(t.content[docid], doc))
            && forall d :: r != Done || d != docid ==> SameAt(t.content, s.content, d)
  {
    FitsExactly(doc, g.maxPosition);
    StoreIsStored(doc);
    ReplayOne(s.content, Put(docid, Store(doc)));
    assert Change(Create(s), |s.handles|, Put(docid, Store(doc))).handles[|s.handles|].ops == [Put(docid, Store(doc))];
  }

  /** Deleting without a transaction id. */
  lemma DeleteAlone(g: Settings, s: State, docid: string, created: bool, now: int)
    requires Shaped(s)
    ensures var (t, r) := Step(g, s, Delete(docid, "", created), now);
            && (docid == "" <==> r == NoDocid)
            && (docid != "" && docid !in s.content <==> r == NoDocument)
            && (docid != "" && docid in s.content && !created <==> r == NotCreated)
            && (docid != "" && docid in s.content && created <==> r == Done)
            && (r == Done ==> docid !in t.content)
            && forall d :: r != Done || d != docid ==> SameAt(t.content, s.content, d)
  {
    ReplayOne(s.content, Remove(docid));
    assert Change(Create(s), |s.handles|, Remove(docid)).handles[|s.handles|].ops == [Remove(docid)];
  }

  /** The responses of the commands that name a transaction; none but a commit changes
      the content. */
  lemma NamedResponses(g: Settings, s: State, c: Command, now: int)
    requires Shaped(s) && (c.Begin? || c.Insert? || c.Delete? || c.Commit? || c.Rollback?) && c.id != ""
    ensures var (t, r) := Step(g, s, c, now);
            && (!c.Commit? || r != Done ==> t.content == s.content)
            && (c.Begin? ==> r == if c.id in s.transMap || c.created then Done else NotCreated)
            && (c.Commit? || c.Rollback? ==> r == if c.id in s.transMap then Done else NoTransaction)
            && (c.Insert? ==>
                  && (c.docid == "" <==> r == NoDocid)
                  && (c.docid != "" && c.id !in s.transMap <==> r == NoTransaction)
                  && (c.docid != "" && c.id in s.transMap && !Fits(c.doc, g.maxPosition) <==> r == TooBig)
                  && (c.docid != "" && c.id in s.transMap && Fits(c.doc, g.maxPosition) <==> r == Done))
            && (c.Delete? ==>
                  && (c.docid == "" <==> r == NoDocid)
                  && (c.docid != "" && c.docid !in s.content <==> r == NoDocument)
                  && (c.docid != "" && c.docid in s.content && c.id !in s.transMap <==> r == NoTransaction)
                  && (c.docid != "" && c.docid in s.content && c.id in s.transMap <==> r == Done))
  {
    if c.Insert? { FitsExactly(c.doc, g.maxPosition); }
  }

  /** What those commands do to the named transactions: beginning, and finding the
      transaction for an insert or a delete, sets the time of its last use; a commit and a
      rollback erase it. No other transaction is touched. */
  lemma NamedEntries(g: Settings, s: State, c: Command, now: int)
    requires Shaped(s) && (c.Begin? || c.Insert? || c.Delete? || c.Commit? || c.Rollback?) && c.id != ""
    ensures var (t, r) := Step(g, s, c, now);
            && (forall id :: id != c.id ==>
                  (id in t.transMap <==> id in s.transMap) && (id in s.transMap ==> t.transMap[id] == s.transMap[id]))
            && (c.Begin? && r == Done ==> c.id in t.transMap && t.transMap[c.id].lastUsed == now)
            && (c.Begin? && c.id in s.transMap ==> t.transMap[c.id].handle == s.transMap[c.id].handle)
            && ((c.Insert? || c.Delete?) && (r == Done || r == TooBig) ==>
                  t.transMap == s.transMap[c.id := Entry(s.transMap[c.id].handle, now)])
            && ((c.Commit? || c.Rollback?) && r == Done ==>
                  && c.id !in t.transMap
                  && t.handles[s.transMap[c.id].handle].status == if c.Commit? then Committed else RolledBack)
  {
    if c.Rollback? && c.id in s.transMap { assert Hit(s, {c.id}, s.transMap[c.id].handle); }
  }

  // ------------------------------------------------------------------
  // Whole transactions
  // ------------------------------------------------------------------

  /** Event `k` of the run is an insert or a delete in transaction `id` that was done. */
  predicate DoneIn(g: Settings, events: seq<Event>, k: nat, id: string)
    requires k < |events|
  {
    var c := events[k].command;
    (c.Insert? || c.Delete?) && c.id == id && Run(g, events).1[k] == Done
  }

  predicate DoneAbout(g: Settings, events: seq<Event>, k: nat, id: string, docid: string)
    requires k < |events|
  {
    DoneIn(g, events, k, id) && events[k].command.docid == docid
  }

  /** The transaction `id` is open in every state of the run from `from` on. */
  ghost predicate OpenSince(g: Settings, events: seq<Event>, from: nat, id: string) {
    from <= |events| && id in Run(g, events).0.transMap &&
    (from < |events| ==> OpenSince(g, events[..|events| - 1], from, id))
  }

  /** From `from` on no insert or delete of the document was done in transaction `id`. */
  ghost predicate NoneAbout(g: Settings, events: seq<Event>, from: nat, id: string, docid: string) {
    forall k :: from <= k < |events| ==> !DoneAbout(g, events, k, id, docid)
  }

  /** Event `k` is the last one done on the document in transaction `id`. */
  ghost predicate LastDone(g: Settings, events: seq<Event>, k: nat, id: string, docid: string)
    requires k < |events|
  {
    DoneAbout(g, events, k, id, docid) && NoneAbout(g, events, k + 1, id, docid)
  }

  /** The buffered operations of an open transaction. */
  function Buffered(s: State, id: string): seq<Op>
    requires Shaped(s) && id in s.transMap
  {
    s.handles[s.transMap[id].handle].ops
  }

  /** The operation is the one of the command. */
  ghost predicate IsOpOf(op: Op, c: Command)
    requires c.Insert? || c.Delete?
  {
    op.docid == c.docid && if c.Insert? then op.Put? && IsStored(op.doc, c.doc) else op.Remove?
  }

  /** An insert or delete that was done adds its operation; nothing else adds any. */
  ghost predicate Grows(ops: seq<Op>, more: seq<Op>, c: Command, id: string, r: Response) {
    if (c.Insert? || c.Delete?) && c.id == id && r == Done then
      |more| == |ops| + 1 && more[..|ops|] == ops && IsOpOf(more[|ops|], c)
    else more == ops
  }

  lemma SpecBuffered(g: Settings, a: Spec, c: Command, now: int, id: string)
    requires id != "" && id in a.open && id in SpecStep(g, a, c, now).0.open
    ensures var (b, r) := SpecStep(g, a, c, now); Grows(a.open[id].ops, b.open[id].ops, c, id, r)
  {
    if c.Insert? { StoreIsStored(c.doc); }
  }

  /** One event while the transaction is open before and after it. */
  lemma StepBuffered(g: Settings, s: State, e: Event, id: string, t: State, r: Response)
    requires Invariant(s) && (t, r) == Step(g, s, e.command, e.now) && Shaped(t)
    requires id != "" && id in s.transMap && id in t.transMap
    ensures Grows(Buffered(s, id), Buffered(t, id), e.command, id, r)
  {
    StepSound(g, s, e.command, e.now);
    assert OpenOf(s)[id].ops == Buffered(s, id) && OpenOf(t)[id].ops == Buffered(t, id);
    SpecBuffered(g, Abstract(s), e.command, e.now, id);
  }

  /** Responses of a run are not taken back. */
  lemma SameDone(g: Settings, events: seq<Event>, k: nat, id: string, docid: string)
    requires k + 1 < |events|
    ensures DoneAbout(g, events, k, id, docid) <==> DoneAbout(g, events[..|events| - 1], k, id, docid)
  {}

  lemma SameNone(g: Settings, events: seq<Event>, from: nat, id: string, docid: string)
    requires from < |events|
    ensures NoneAbout(g, events, from, id, docid) <==>
            NoneAbout(g, events[..|events| - 1], from, id, docid) && !DoneAbout(g, events, |events| - 1, id, docid)
  {
    var before := events[..|events| - 1];
    forall k | from <= k < |before|
      ensures DoneAbout(g, events, k, id, docid) <==> DoneAbout(g, before, k, id, docid)
    {
      SameDone(g, events, k, id, docid);
    }
    if NoneAbout(g, before, from, id, docid) && !DoneAbout(g, events, |before|, id, docid) {
      forall k | from <= k < |events| ensures !DoneAbout(g, events, k, id, docid) {
        if k < |before| { assert !DoneAbout(g, before, k, id, docid); }
      }
    }
  }

  /** The last event of a run, while the transaction is open. */
  lemma LastBuffered(g: Settings, events: seq<Event>, id: string)
    requires events != [] && id != ""
    requires id in Run(g, events[..|events| - 1]).0.transMap && id in Run(g, events).0.transMap
    ensures var n := |events| - 1;
            Grows(Buffered(Run(g, events[..n]).0, id), Buffered(Run(g, events).0, id),
                  events[n].command, id, Run(g, events).1[n])
  {
    var n := |events| - 1;
    RunRefines(g, events[..n]);
    var (t, rs) := Run(g, events);
    StepBuffered(g, Run(g, events[..n]).0, events[n], id, t, rs[n]);
  }

  /** A transaction begins: nothing is buffered. */
  lemma BeginBuffered(g: Settings, events: seq<Event>, id: string)
    requires events != [] && id != "" && events[|events| - 1].command.Begin? && events[|events| - 1].command.id == id
    requires id !in Run(g, events[..|events| - 1]).0.transMap && id in Run(g, events).0.transMap
    ensures Buffered(Run(g, events).0, id) == []
  {}

  /** The transaction `id` began with event `from` - 1 and has been open since. */
  ghost predicate Session(g: Settings, events: seq<Event>, from: nat, id: string) {
    && id != "" && 0 < from <= |events|
    && events[from - 1].command.Begin? && events[from - 1].command.id == id
    && id !in Run(g, events[..from - 1]).0.transMap && OpenSince(g, events, from, id)
  }

  lemma SessionBefore(g: Settings, events: seq<Event>, from: nat, id: string)
    requires Session(g, events, from, id) && from < |events|
    ensures Session(g, events[..|events| - 1], from, id)
  {
    assert events[..|events| - 1][..from - 1] == events[..from - 1];
  }

  lemma {:induction false} NothingBuffered(g: Settings, events: seq<Event>, from: nat, id: string, docid: string)
    requires Session(g, events, from, id) && NoneAbout(g, events, from, id, docid)
    ensures Untouched(Buffered(Run(g, events).0, id), 0, docid)
  {
    if from == |events| {
      BeginBuffered(g, events, id);
    } else {
      SessionBefore(g, events, from, id);
      SameNone(g, events, from, id, docid);
      NothingBuffered(g, events[..|events| - 1], from, id, docid);
      LastBuffered(g, events, id);
      UntouchedMore(Buffered(Run(g, events[..|events| - 1]).0, id), Buffered(Run(g, events).0, id), 0, docid);
    }
  }

  lemma UntouchedMore(ops: seq<Op>, more: seq<Op>, from: nat, docid: string)
    requires Untouched(ops, from, docid)
    requires more == ops || (|more| == |ops| + 1 && more[..|ops|] == ops && more[|ops|].docid != docid)
    ensures Untouched(more, from, docid)
  {
    forall j | from <= j < |more| ensures more[j].docid != docid {
      if j < |ops| { assert more[..|ops|] == ops ==> more[j] == ops[j]; }
    }
  }

  /** The last insert or delete of a document done in the transaction is the last
      buffered operation about it. */
  lemma {:induction false} LastIsBuffered(g: Settings, events: seq<Event>, from: nat, id: string, docid: string, k: nat)
    returns (i: nat)
    requires Session(g, events, from, id) && from <= k < |events|
    requires DoneAbout(g, events, k, id, docid) && NoneAbout(g, events, k + 1, id, docid)
    ensures var ops := Buffered(Run(g, events).0, id);
            LastAbout(ops, i, docid) && IsOpOf(ops[i], events[k].command)
  {
    var n := |events| - 1;
    var before := events[..n];
    SessionBefore(g, events, from, id);
    LastBuffered(g, events, id);
    if k == n {
      i := |Buffered(Run(g, before).0, id)|;
    } else {
      SameDone(g, events, k, id, docid);
      SameNone(g, events, k + 1, id, docid);
      i := LastIsBuffered(g, before, from, id, docid, k);
      UntouchedMore(Buffered(Run(g, before).0, id), Buffered(Run(g, events).0, id), i + 1, docid);
    }
  }

  /** What a command on a document leaves there. */
  ghost predicate TookEffect(content: Content, c: Command)
    requires c.Insert? || c.Delete?
  {
    if c.Insert? then c.docid in content && IsStored(content[c.docid], c.doc) else c.docid !in content
  }

  lemma CommitContent(g: Settings, s: State, id: string, now: int)
    requires Shaped(s) && id != "" && id in s.transMap
    ensures var (t, r) := Step(g, s, Commit(id), now);
            r == Done && id !in t.transMap && t.content == Replay(s.content, Buffered(s, id))
  {}

  /** Committing a transaction, over every run and whatever else went on meanwhile: a
      document is as it was just before if no insert or delete of it was done in the
      transaction, and otherwise as the last of these says. */
  lemma CommitMeaning(g: Settings, events: seq<Event>, from: nat, id: string, docid: string, now: int)
    requires Session(g, events, from, id)
    ensures var s := Run(g, events).0;
            var (t, r) := Step(g, s, Commit(id), now);
            && r == Done && id !in t.transMap
            && (NoneAbout(g, events, from, id, docid) ==> SameAt(t.content, s.content, docid))
            && forall k :: from <= k < |events| && LastDone(g, events, k, id, docid) ==>
                 TookEffect(t.content, events[k].command)
  {
    var s := Run(g, events).0;
    var ops := Buffered(s, id);
    CommitContent(g, s, id, now);
    ReplayMeaning(s.content, ops, docid);
    if NoneAbout(g, events, from, id, docid) { NothingBuffered(g, events, from, id, docid); }
    forall k | from <= k < |events| && LastDone(g, events, k, id, docid)
      ensures TookEffect(Replay(s.content, ops), events[k].command)
    {
      var i := LastIsBuffered(g, events, from, id, docid, k);
      assert HoldsAfter(Replay(s.content, ops), ops[i]);
    }
  }

  /** Two documents inserted in one transaction are both there after the commit. */
  lemma InsertedTogether(g: Settings, d: Document, e: Document, now: int)
    requires Fits(d, g.maxPosition) && Fits(e, g.maxPosition)
    ensures var events := [Event(Begin("t", true), now), Event(Insert("d", "t", false, d), now),
                           Event(Insert("e", "t", false, e), now)];
            var content := Step(g, Run(g, events).0, Commit("t"), now).0.content;
            "d" in content && IsStored(content["d"], d) && "e" in content && IsStored(content["e"], e)
  {
    var b, c1, c2 := Begin("t", true), Insert("d", "t", false, d), Insert("e", "t", false, e);
    var e1 := [Event(b, now)];
    var e2 := e1 + [Event(c1, now)];
    var events := e2 + [Event(c2, now)];
    assert |"t"| == 1 && |"d"| == 1 && |"e"| == 1 && "d"[0] != "e"[0];
    assert e1[..0] == [] && e2[..1] == e1 && events[..2] == e2;
    assert "t" in Run(g, e1).0.transMap;
    NamedResponses(g, Run(g, e1).0, c1, now);
    FitsExactly(d, g.maxPosition);
    FitsExactly(e, g.maxPosition);
    NamedResponses(g, Run(g, e2).0, c2, now);
    assert OpenSince(g, e1, 1, "t") && OpenSince(g, e2, 1, "t") && Session(g, events, 1, "t");
    assert LastDone(g, events, 2, "t", "e");
    CommitMeaning(g, events, 1, "t", "e", now);
    TogetherDone(g, events);
    CommitMeaning(g, events, 1, "t", "d", now);
    assert events == [Event(b, now), Event(c1, now), Event(c2, now)];
  }

  lemma TogetherDone(g: Settings, events: seq<Event>)
    requires |events| == 3 && events[1].command.Insert? && events[2].command.Insert?
    requires events[1].command.docid == "d" && events[2].command.docid == "e"
    requires DoneIn(g, events, 1, "t")
    ensures LastDone(g, events, 1, "t", "d")
  {
    assert "d"[0] != "e"[0];
  }
}
