/** The transactions of an index: the commands on its registry (src.old), and a
    simple machine without handles that they refine. */
module Transactions {

  // ------------------------------------------------------------------
  // Documents
  // ------------------------------------------------------------------

  /** A position in a request is a signed 32-bit number. */
  newtype Position = x: int | -0x8000_0000 <= x < 0x8000_0000

  datatype Term = Term(kind: string, value: string, position: Position)

  datatype Document = Document(fields: seq<(string, string)>, forward: seq<Term>, search: seq<Term>)

  datatype Posting = Posting(kind: string, value: string, position: nat)

  datatype Stored = Stored(fields: seq<(string, string)>, forward: seq<Posting>, search: seq<Posting>)

  /** The conversion to an unsigned number. */
  function Unsigned(p: Position): (n: nat)
    ensures n < 0x1_0000_0000 && (p >= 0 ==> n == p as int)
  {
    if p >= 0 then p as int else p as int + 0x1_0000_0000
  }

  function Postings(ts: seq<Term>): (ps: seq<Posting>)
    ensures |ps| == |ts|
    ensures forall i :: 0 <= i < |ts| ==> ps[i] == Posting(ts[i].kind, ts[i].value, Unsigned(ts[i].position))
  {
    if ts == [] then []
    else
      var t := ts[|ts| - 1];
      Postings(ts[..|ts| - 1]) + [Posting(t.kind, t.value, Unsigned(t.position))]
  }

  function Store(doc: Document): Stored {
    Stored(doc.fields, Postings(doc.forward), Postings(doc.search))
  }

  predicate OutOfRange(ts: seq<Term>, max: nat) {
    exists i :: 0 <= i < |ts| && Unsigned(ts[i].position) > max
  }

  /** Some token position is beyond what the storage can hold. */
  predicate Oversized(doc: Document, max: nat) {
    OutOfRange(doc.forward, max) || OutOfRange(doc.search, max)
  }

  // ------------------------------------------------------------------
  // The state of an index
  // ------------------------------------------------------------------

  datatype Op = Put(docid: string, doc: Stored) | Remove(docid: string)

  type Content = map<string, Stored>

  function Apply(content: Content, op: Op): Content {
    match op
    case Put(docid, doc) => content[docid := doc]
    case Remove(docid) => content - {docid}
  }

  function Replay(content: Content, ops: seq<Op>): Content {
    if ops == [] then content else Apply(Replay(content, ops[..|ops| - 1]), ops[|ops| - 1])
  }

  datatype Status = Live | Committed | RolledBack

  /** A transaction object of the storage with its buffered operations. */
  datatype Handle = Handle(ops: seq<Op>, status: Status)

  datatype Entry = Entry(handle: int, lastUsed: int)

  datatype State = State(transMap: map<string, Entry>, handles: seq<Handle>, content: Content,
                         commits: seq<int>, lastWake: int)

  const INITIAL: State := State(map[], [], map[], [], 0)

  predicate Shaped(s: State) { forall id :: id in s.transMap ==> 0 <= s.transMap[id].handle < |s.handles| }

  /** What the commands depend on: the highest position, the longest idle time, and
      whether the implicit transaction of a refused document is left as it is, which
      is how the code is written. */
  datatype Settings = Settings(maxPosition: nat, maxIdle: nat, leaky: bool)

  const HOUSEKEEPING := 10

  function Create(s: State): State { s.(handles := s.handles + [Handle([], Live)]) }

  function Touch(s: State, id: string, now: int): State
    requires id in s.transMap
  {
    s.(transMap := s.transMap[id := s.transMap[id].(lastUsed := now)])
  }

  function Change(s: State, h: int, op: Op): State
    requires 0 <= h < |s.handles|
  {
    s.(handles := s.handles[h := Handle(s.handles[h].ops + [op], s.handles[h].status)])
  }

  function CommitHandle(s: State, h: int): State
    requires 0 <= h < |s.handles|
  {
    s.(handles := s.handles[h := Handle(s.handles[h].ops, Committed)],
       content := Replay(s.content, s.handles[h].ops), commits := s.commits + [h])
  }

  function RollBackHandle(s: State, h: int): State
    requires 0 <= h < |s.handles|
  {
    s.(handles := s.handles[h := Handle(s.handles[h].ops, RolledBack)])
  }

  /** Whether one of the entries `ids` has the handle `h`. */
  predicate Hit(s: State, ids: set<string>, h: int) {
    exists id :: id in ids && id in s.transMap && s.transMap[id].handle == h
  }

  /** The entries `ids` rolled back and erased. */
  function Discard(s: State, ids: set<string>): State {
    s.(transMap := s.transMap - ids,
       handles := seq(|s.handles|, h requires 0 <= h < |s.handles| =>
         if Hit(s, ids, h) then Handle(s.handles[h].ops, RolledBack) else s.handles[h]))
  }

  /** The age of a transaction, an unsigned 32-bit number. */
  function Age(now: int, lastUsed: int): nat { (now - lastUsed) % 0x1_0000_0000 }

  function Overdue(s: State, maxIdle: nat, now: int): set<string> {
    set id | id in s.transMap && Age(now, s.transMap[id].lastUsed) > maxIdle
  }

  // ------------------------------------------------------------------
  // The commands
  // ------------------------------------------------------------------

  datatype Command =
    | Begin(id: string, created: bool)
    | Insert(docid: string, id: string, created: bool, doc: Document)
    | Delete(docid: string, id: string, created: bool)
    | Commit(id: string)
    | Rollback(id: string)
    | Close
    | Tick

  datatype Response = Done | NoId | NoDocid | NotCreated | NoTransaction | TooBig | NoDocument

  function BeginStep(s: State, id: string, created: bool, now: int): (State, Response) {
    if id == "" then (s, NoId)
    else if id in s.transMap then (Touch(s, id, now), Done)
    else if !created then (s, NotCreated)
    else (Create(s).(transMap := s.transMap[id := Entry(|s.handles|, now)]), Done)
  }

  /** A transaction of its own for one operation, committed at once. */
  function Implicit(s: State, op: Op): State {
    var h := |s.handles|;
    CommitHandle(Change(Create(s), h, op), h)
  }

  function InsertStep(g: Settings, s: State, docid: string, id: string, created: bool, doc: Document, now: int)
    : (State, Response)
    requires Shaped(s)
  {
    if docid == "" then (s, NoDocid)
    else if id == "" then
      if !created then (s, NotCreated)
      else if Oversized(doc, g.maxPosition) then
        (if g.leaky then Create(s) else RollBackHandle(Create(s), |s.handles|), TooBig)
      else (Implicit(s, Put(docid, Store(doc))), Done)
    else if id !in s.transMap then (s, NoTransaction)
    else if Oversized(doc, g.maxPosition) then (Touch(s, id, now), TooBig)
    else (Change(Touch(s, id, now), s.transMap[id].handle, Put(docid, Store(doc))), Done)
  }

  function DeleteStep(s: State, docid: string, id: string, created: bool, now: int): (State, Response)
    requires Shaped(s)
  {
    if docid == "" then (s, NoDocid)
    else if docid !in s.content then (s, NoDocument)
    else if id == "" then
      if !created then (s, NotCreated) else (Implicit(s, Remove(docid)), Done)
    else if id !in s.transMap then (s, NoTransaction)
    else (Change(Touch(s, id, now), s.transMap[id].handle, Remove(docid)), Done)
  }

  function CommitStep(s: State, id: string): (State, Response)
    requires Shaped(s)
  {
    if id == "" then (s, NoId)
    else if id !in s.transMap then (s, NoTransaction)
    else (CommitHandle(s, s.transMap[id].handle).(transMap := s.transMap - {id}), Done)
  }

  function RollbackStep(s: State, id: string): (State, Response)
    requires Shaped(s)
  {
    if id == "" then (s, NoId)
    else if id !in s.transMap then (s, NoTransaction)
    else (Discard(s, {id}), Done)
  }

  function TickStep(g: Settings, s: State, now: int): State {
    if now - s.lastWake > HOUSEKEEPING then Discard(s, Overdue(s, g.maxIdle, now)).(lastWake := now) else s
  }

  function Step(g: Settings, s: State, c: Command, now: int): (State, Response)
    requires Shaped(s)
  {
    match c
    case Begin(id, created) => BeginStep(s, id, created, now)
    case Insert(docid, id, created, doc) => InsertStep(g, s, docid, id, created, doc, now)
    case Delete(docid, id, created) => DeleteStep(s, docid, id, created, now)
    case Commit(id) => CommitStep(s, id)
    case Rollback(id) => RollbackStep(s, id)
    case Close => (Discard(s, s.transMap.Keys), Done)
    case Tick => (TickStep(g, s, now), Done)
  }

  lemma StepShaped(g: Settings, s: State, c: Command, now: int)
    requires Shaped(s)
    ensures Shaped(Step(g, s, c, now).0)
  {}

  // ------------------------------------------------------------------
  // The machine without handles
  // ------------------------------------------------------------------

  datatype Open = Open(ops: seq<Op>, lastUsed: int)

  /** Named transactions are lists of operations. */
  datatype Spec = Spec(open: map<string, Open>, content: Content, lastWake: int)

  function Adds(a: Spec, id: string, op: Op, now: int): Spec
    requires id in a.open
  {
    a.(open := a.open[id := Open(a.open[id].ops + [op], now)])
  }

  function SpecStep(g: Settings, a: Spec, c: Command, now: int): (Spec, Response) {
    match c
    case Begin(id, created) =>
      if id == "" then (a, NoId)
      else if id in a.open then (a.(open := a.open[id := Open(a.open[id].ops, now)]), Done)
      else if !created then (a, NotCreated)
      else (a.(open := a.open[id := Open([], now)]), Done)
    case Insert(docid, id, created, doc) =>
      if docid == "" then (a, NoDocid)
      else if id == "" then
        if !created then (a, NotCreated)
        else if Oversized(doc, g.maxPosition) then (a, TooBig)
        else (a.(content := a.content[docid := Store(doc)]), Done)
      else if id !in a.open then (a, NoTransaction)
      else if Oversized(doc, g.maxPosition) then (a.(open := a.open[id := Open(a.open[id].ops, now)]), TooBig)
      else (Adds(a, id, Put(docid, Store(doc)), now), Done)
    case Delete(docid, id, created) =>
      if docid == "" then (a, NoDocid)
      else if docid !in a.content then (a, NoDocument)
      else if id == "" then
        if !created then (a, NotCreated) else (a.(content := a.content - {docid}), Done)
      else if id !in a.open then (a, NoTransaction)
      else (Adds(a, id, Remove(docid), now), Done)
    case Commit(id) =>
      if id == "" then (a, NoId)
      else if id !in a.open then (a, NoTransaction)
      else (a.(open := a.open - {id}, content := Replay(a.content, a.open[id].ops)), Done)
    case Rollback(id) =>
      if id == "" then (a, NoId)
      else if id !in a.open then (a, NoTransaction)
      else (a.(open := a.open - {id}), Done)
    case Close => (a.(open := map[]), Done)
    case Tick =>
      if now - a.lastWake > HOUSEKEEPING
      then (a.(open := map id | id in a.open && Age(now, a.open[id].lastUsed) <= g.maxIdle :: a.open[id],
               lastWake := now), Done)
      else (a, Done)
  }

  function OpenOf(s: State): map<string, Open>
    requires Shaped(s)
  {
    map id | id in s.transMap :: Open(s.handles[s.transMap[id].handle].ops, s.transMap[id].lastUsed)
  }

  function Abstract(s: State): Spec
    requires Shaped(s)
  {
    Spec(OpenOf(s), s.content, s.lastWake)
  }

  // ------------------------------------------------------------------
  // What every command keeps
  // ------------------------------------------------------------------

  /** Each entry has a live handle of its own. */
  ghost predicate Mapped(s: State) {
    && Shaped(s)
    && (forall id :: id in s.transMap ==> s.handles[s.transMap[id].handle].status == Live)
    && (forall id, jd :: id in s.transMap && jd in s.transMap && s.transMap[id].handle == s.transMap[jd].handle ==>
          id == jd)
  }

  function ReplayAll(hs: seq<Handle>, commits: seq<int>): Content
    requires forall i :: 0 <= i < |commits| ==> 0 <= commits[i] < |hs|
  {
    if commits == [] then map[]
    else Replay(ReplayAll(hs, commits[..|commits| - 1]), hs[commits[|commits| - 1]].ops)
  }

  ghost predicate AreCommitted(hs: seq<Handle>, commits: seq<int>) {
    forall i :: 0 <= i < |commits| ==> 0 <= commits[i] < |hs| && hs[commits[i]].status == Committed
  }

  ghost predicate Once(commits: seq<int>) {
    forall i, j :: 0 <= i < j < |commits| ==> commits[i] != commits[j]
  }

  ghost predicate AllListed(hs: seq<Handle>, commits: seq<int>) {
    forall h :: 0 <= h < |hs| && hs[h].status == Committed ==> h in commits
  }

  /** The committed handles are those in `commits`, once each, and replaying them in
      that order gives the content. */
  ghost predicate Replayed(s: State) {
    && AreCommitted(s.handles, s.commits)
    && Once(s.commits)
    && AllListed(s.handles, s.commits)
    && s.content == ReplayAll(s.handles, s.commits)
  }

  ghost predicate Invariant(s: State) { Mapped(s) && Replayed(s) }

  /** What a finished handle was it stays: nothing is added to it, and it is neither
      committed nor rolled back again. */
  ghost predicate Finished(s: State, t: State) {
    && |s.handles| <= |t.handles| && |s.commits| <= |t.commits| && t.commits[..|s.commits|] == s.commits
    && forall h :: 0 <= h < |s.handles| && s.handles[h].status != Live ==> t.handles[h] == s.handles[h]
  }

  lemma {:induction false} ReplaySame(hs: seq<Handle>, gs: seq<Handle>, commits: seq<int>)
    requires forall i :: 0 <= i < |commits| ==>
               0 <= commits[i] < |hs| && commits[i] < |gs| && hs[commits[i]].ops == gs[commits[i]].ops
    ensures ReplayAll(hs, commits) == ReplayAll(gs, commits)
  {
    if commits != [] { ReplaySame(hs, gs, commits[..|commits| - 1]); }
  }

  /** A step that commits nothing and leaves the committed handles alone. */
  lemma {:induction false} KeepsReplayed(s: State, t: State)
    requires Replayed(s) && t.commits == s.commits && t.content == s.content && |s.handles| <= |t.handles|
    requires forall h :: 0 <= h < |s.handles| && s.handles[h].status == Committed ==> t.handles[h] == s.handles[h]
    requires forall h :: 0 <= h < |t.handles| && t.handles[h].status == Committed ==>
               h < |s.handles| && s.handles[h].status == Committed
    ensures Replayed(t)
  {
    ReplaySame(s.handles, t.handles, s.commits);
  }

  lemma {:induction false} CommitFinished(s: State, h: int)
    requires Replayed(s) && 0 <= h < |s.handles| && s.handles[h].status == Live
    ensures Finished(s, CommitHandle(s, h))
  {
    assert CommitHandle(s, h).commits[..|s.commits|] == s.commits;
  }

  lemma {:induction false} ListedMore(hs: seq<Handle>, commits: seq<int>, h: int)
    requires AreCommitted(hs, commits) && Once(commits) && AllListed(hs, commits)
    requires 0 <= h < |hs| && hs[h].status == Live
    ensures var gs := hs[h := Handle(hs[h].ops, Committed)];
            AreCommitted(gs, commits + [h]) && Once(commits + [h]) && AllListed(gs, commits + [h])
  {
    var gs, more := hs[h := Handle(hs[h].ops, Committed)], commits + [h];
    assert forall i :: 0 <= i < |commits| ==> more[i] == commits[i];
    forall k | 0 <= k < |gs| && gs[k].status == Committed ensures k in more {
      if k == h { assert more[|commits|] == h; } else { assert k in commits; }
    }
  }

  lemma {:induction false} ReplayMore(hs: seq<Handle>, commits: seq<int>, h: int)
    requires AreCommitted(hs, commits) && 0 <= h < |hs|
    ensures var gs := hs[h := Handle(hs[h].ops, Committed)];
            AreCommitted(gs, commits + [h]) && ReplayAll(gs, commits + [h]) == Replay(ReplayAll(hs, commits), hs[h].ops)
  {
    var gs, more := hs[h := Handle(hs[h].ops, Committed)], commits + [h];
    assert more[..|commits|] == commits && more[|commits|] == h;
    assert forall i :: 0 <= i < |commits| ==> more[i] == commits[i];
    ReplaySame(hs, gs, commits);
  }

  /** Committing a live handle. */
  lemma {:induction false} CommitReplayed(s: State, h: int)
    requires Replayed(s) && 0 <= h < |s.handles| && s.handles[h].status == Live
    ensures Replayed(CommitHandle(s, h))
  {
    ListedMore(s.handles, s.commits, h);
    ReplayMore(s.handles, s.commits, h);
  }

  lemma {:induction false} CreateKeeps(s: State)
    requires Invariant(s)
    ensures Invariant(Create(s)) && Finished(s, Create(s))
  {
    KeepsReplayed(s, Create(s));
  }

  lemma {:induction false} CreateAbstract(s: State)
    requires Shaped(s)
    ensures Abstract(Create(s)) == Abstract(s)
  {}

  lemma {:induction false} TouchKeeps(s: State, id: string, now: int)
    requires Invariant(s) && id in s.transMap
    ensures Invariant(Touch(s, id, now)) && Finished(s, Touch(s, id, now))
  {
    KeepsReplayed(s, Touch(s, id, now));
  }

  lemma {:induction false} TouchAbstract(s: State, id: string, now: int)
    requires Shaped(s) && id in s.transMap
    ensures Abstract(Touch(s, id, now)) == Abstract(s).(open := OpenOf(s)[id := Open(OpenOf(s)[id].ops, now)])
  {}

  lemma {:induction false} ChangeKeeps(s: State, h: int, op: Op)
    requires Invariant(s) && 0 <= h < |s.handles| && s.handles[h].status == Live
    ensures Invariant(Change(s, h, op)) && Finished(s, Change(s, h, op))
  {
    KeepsReplayed(s, Change(s, h, op));
  }

  lemma {:induction false} ChangeAbstract(s: State, id: string, op: Op)
    requires Mapped(s) && id in s.transMap
    ensures var o := OpenOf(s);
            Abstract(Change(s, s.transMap[id].handle, op)) ==
            Abstract(s).(open := o[id := Open(o[id].ops + [op], o[id].lastUsed)])
  {
    var t := Change(s, s.transMap[id].handle, op);
    forall jd | jd in s.transMap && jd != id
      ensures t.handles[s.transMap[jd].handle] == s.handles[s.transMap[jd].handle]
    {
      assert s.transMap[jd].handle != s.transMap[id].handle;
    }
  }

  /** Erasing an entry and changing its handle only leaves the others. */
  lemma {:induction false} OthersKept(s: State, t: State, id: string)
    requires Mapped(s) && id in s.transMap && t.transMap == s.transMap - {id} && |t.handles| == |s.handles|
    requires forall h :: 0 <= h < |s.handles| && h != s.transMap[id].handle ==> t.handles[h] == s.handles[h]
    ensures Mapped(t) && OpenOf(t) == OpenOf(s) - {id}
  {
    forall jd | jd in t.transMap ensures t.handles[t.transMap[jd].handle] == s.handles[s.transMap[jd].handle] {
      assert s.transMap[jd].handle != s.transMap[id].handle;
    }
  }

  lemma {:induction false} CommitKeeps(s: State, id: string)
    requires Invariant(s) && id in s.transMap
    ensures var t := CommitHandle(s, s.transMap[id].handle).(transMap := s.transMap - {id});
            Invariant(t) && Finished(s, t) && OpenOf(t) == OpenOf(s) - {id}
  {
    var h := s.transMap[id].handle;
    var c := CommitHandle(s, h);
    var t := c.(transMap := s.transMap - {id});
    CommitReplayed(s, h);
    CommitFinished(s, h);
    OthersKept(s, t, id);
    ErasedReplayed(c, s.transMap - {id});
  }

  lemma {:induction false} ErasedReplayed(s: State, m: map<string, Entry>)
    requires Replayed(s)
    ensures Replayed(s.(transMap := m))
  {}

  lemma {:induction false} DiscardOthers(s: State, ids: set<string>)
    requires Mapped(s)
    ensures Mapped(Discard(s, ids)) && OpenOf(Discard(s, ids)) == OpenOf(s) - ids
  {
    var t := Discard(s, ids);
    forall jd | jd in t.transMap ensures t.handles[t.transMap[jd].handle] == s.handles[s.transMap[jd].handle] {
      assert !Hit(s, ids, s.transMap[jd].handle);
    }
  }

  lemma {:induction false} DiscardKeeps(s: State, ids: set<string>)
    requires Invariant(s)
    ensures Invariant(Discard(s, ids)) && Finished(s, Discard(s, ids))
  {
    DiscardOthers(s, ids);
    KeepsReplayed(s, Discard(s, ids));
  }

  /** A transaction for one operation: the content changes by it, and nothing else. */
  lemma {:induction false} ImplicitKeeps(s: State, op: Op)
    requires Invariant(s)
    ensures Invariant(Implicit(s, op)) && Finished(s, Implicit(s, op))
    ensures Abstract(Implicit(s, op)) == Abstract(s).(content := Apply(s.content, op))
  {
    var h, a := |s.handles|, Create(s);
    CreateKeeps(s);
    ChangeKeeps(a, h, op);
    CommitNew(s, a, Change(a, h, op), h);
    ImplicitOthers(s, op);
    ImplicitMapped(s, Implicit(s, op));
    ImplicitAbstract(s, op);
  }

  lemma {:induction false} ImplicitOthers(s: State, op: Op)
    ensures var t := Implicit(s, op);
            t.transMap == s.transMap && |t.handles| == |s.handles| + 1
            && forall h :: 0 <= h < |s.handles| ==> t.handles[h] == s.handles[h]
  {}

  lemma {:induction false} CommitNew(s: State, a: State, b: State, h: int)
    requires Finished(s, a) && Finished(a, b) && Replayed(b) && 0 <= h < |b.handles| && b.handles[h].status == Live
    ensures Replayed(CommitHandle(b, h)) && Finished(s, CommitHandle(b, h))
  {
    CommitReplayed(b, h);
    CommitFinished(b, h);
    FinishedTransitive(s, a, b);
    FinishedTransitive(s, b, CommitHandle(b, h));
  }

  lemma {:induction false} FinishedTransitive(s: State, t: State, u: State)
    requires Finished(s, t) && Finished(t, u)
    ensures Finished(s, u)
  {
    assert u.commits[..|s.commits|] == t.commits[..|s.commits|];
  }

  lemma {:induction false} ImplicitMapped(s: State, t: State)
    requires Mapped(s) && t.transMap == s.transMap && |s.handles| <= |t.handles|
    requires forall h :: 0 <= h < |s.handles| ==> t.handles[h] == s.handles[h]
    ensures Mapped(t) && OpenOf(t) == OpenOf(s)
  {}

  lemma {:induction false} ImplicitAbstract(s: State, op: Op)
    requires Mapped(s)
    ensures Shaped(Implicit(s, op))
    ensures Abstract(Implicit(s, op)) == Abstract(s).(content := Apply(s.content, op))
  {
    ImplicitMapped(s, Implicit(s, op));
    ReplayOne(s.content, op);
    assert Change(Create(s), |s.handles|, op).handles[|s.handles|].ops == [op];
  }

  lemma {:induction false} ReplayOne(content: Content, op: Op)
    ensures Replay(content, [op]) == Apply(content, op)
  {
    assert [op][..0] == [];
  }
}
