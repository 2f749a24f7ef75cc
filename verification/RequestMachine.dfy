/** Admission, maintenance halt, parking and draining of requests, with every
    shared access a step of its own (src/applicationImpl.cpp, src/serviceClosure.*,
    src/webRequestDelegateContext.cpp). */
module RequestMachine {
  import opened Delegates

  // ------------------------------------------------------------------
  // What one request does
  // ------------------------------------------------------------------

  datatype Code = TemporarilyUnavailable | NeedExclusiveAccess | NotAllowed | LogicError | OtherError(code: int)

  /** What execute and getDelegateRequests or getAnswer of a request context yield. */
  datatype Execution = Executed(delegates: seq<Delegate>) | Failed(httpStatus: int, code: Code)

  datatype Report =
    | Answer
    | TemporalReject
    | Error(httpStatus: int, code: Code)
    | Delegated(last: Event)

  datatype Reaction = Respond(report: Report) | Park | FanOut(delegates: seq<Delegate>)

  /** runRequest after execute; `doReply` is false for HEAD. */
  function React(x: Execution, doReply: bool): Reaction {
    match x
    case Executed(ds) => if ds == [] then Respond(Answer) else FanOut(ds)
    case Failed(status, code) =>
      if status == 503 && code == TemporarilyUnavailable then Respond(TemporalReject)
      else if status == 503 && code == NeedExclusiveAccess then
        if doReply then Park else Respond(Error(405, NotAllowed))
      else Respond(Error(status, code))
  }

  /** The drain executes a parked request once more; it may not delegate. */
  function ReactParked(x: Execution): Report {
    match x
    case Executed(ds) => if ds == [] then Answer else Error(500, LogicError)
    case Failed(status, code) => Error(status, code)
  }

  // ------------------------------------------------------------------
  // The machine
  // ------------------------------------------------------------------

  /** Where the work on a request stands. */
  datatype Phase =
    | Admitted      // found the flag clear, not counted yet
    | Running       // counted
    | Parking       // owns the mutex and has set the flag
    | Delegating    // waits for answers of other servers
    | Finishing     // answered or parked, still counted
    | SawZero       // brought the counter to zero, has yet to test the flag
    | WantsDrain    // found the flag set, has yet to take the mutex
    | Drain         // owns the mutex, answers parked requests
    | Cleared       // owns the mutex, has cleared the list
    | Done

  predicate Counted(p: Phase) {
    p.Running? || p.Parking? || p.Delegating? || p.Finishing?
  }

  predicate OwnsMutex(p: Phase) {
    p.Parking? || p.Drain? || p.Cleared?
  }

  /** Has seen the counter at zero and not finished its test or drain. */
  predicate Pending(p: Phase) {
    p.SawZero? || p.WantsDrain? || p.Drain?
  }

  /** Was answered, or entered into the list of parked requests. */
  predicate Settled(p: Phase) {
    !p.Admitted? && !p.Running? && !p.Parking? && !p.Delegating?
  }

  datatype Mutex = Free | Held(owner: nat)

  /** The exchange of a delegated request, and the batch it began with. */
  datatype Talk = Talk(init: seq<Delegate>, state: Issued)

  /** `list` is the list of parked requests, `cursor` how far the drain in
      progress has come.  `log`, `arrived`, `drained`, `started` and `finished` record the run:
      responses, parked requests, drained requests, increments and decrements. */
  datatype State = State(
    counter: int, flag: bool, list: seq<nat>, cursor: nat, mutex: Mutex,
    phase: map<nat, Phase>, exchange: map<nat, Talk>,
    log: seq<(nat, Report)>, arrived: seq<nat>, drained: seq<nat>, started: seq<nat>, finished: seq<nat>)

  const INITIAL: State := State(0, false, [], 0, Free, map[], map[], [], [], [], [], [])

  datatype Label =
    | TestFlag(r: nat)                                  // exec_request tests the flag
    | TurnAway(r: nat, httpStatus: int, code: Code)     // exec_request reports an error before runRequest
    | Start(r: nat)                                     // startRunRequest
    | Execute(r: nat, x: Execution, doReply: bool, issued: Issued)  // execute; answer, issue, or lock and set the flag
    | Append(r: nat)                                    // push_back and unlock
    | AnswerDelegate(r: nat, k: nat, st: Status, issued: Issued)    // a receiver is called
    | Decrement(r: nat)                                 // doneRunRequest
    | TestHalted(r: nat)                                // haltedForMaintenance after zero
    | Lock(r: nat)                                      // processWaitingRequests takes the mutex
    | DrainOne(r: nat, x: Execution)                    // one turn of its loop
    | Clear(r: nat)                                     // m_waitingContextList.clear()
    | Unlock(r: nat)                                    // flag reset, mutex released
    | Throw(r: nat)                                     // an exception leaves execute

  predicate At(s: State, r: nat, p: Phase) {
    r in s.phase && s.phase[r] == p
  }

  predicate Allowed(s: State, a: Label) {
    match a
    case TestFlag(r) => r !in s.phase
    case TurnAway(r, _, _) => At(s, r, Admitted)
    case Start(r) => At(s, r, Admitted)
    case Execute(r, x, doReply, _) => At(s, r, Running) && (React(x, doReply).Park? ==> s.mutex.Free?)
    case Append(r) => At(s, r, Parking)
    case AnswerDelegate(r, k, _, _) => r in s.exchange && k < |s.exchange[r].state.waiting|
    case Decrement(r) => At(s, r, Finishing)
    case TestHalted(r) => At(s, r, SawZero)
    case Lock(r) => At(s, r, WantsDrain) && s.mutex.Free?
    case DrainOne(r, _) => At(s, r, Drain) && s.cursor < |s.list|
    case Clear(r) => At(s, r, Drain) && s.cursor == |s.list|
    case Unlock(r) => At(s, r, Cleared)
    case Throw(r) => At(s, r, Running)
  }

  /** The exchange a label leads to is the one the delegate protocol yields. */
  predicate Faithful(s: State, a: Label)
    requires Allowed(s, a)
  {
    match a
    case Execute(r, x, doReply, issued) =>
      (match React(x, doReply) case FanOut(ds) => issued == Issue(ToFollowUp, ds) case _ => true)
    case AnswerDelegate(r, k, st, issued) => issued == PutAnswer(ToFollowUp, s.exchange[r].state, k, st)
    case _ => true
  }

  predicate Enabled(s: State, a: Label) {
    Allowed(s, a) && Faithful(s, a)
  }

  function Move(s: State, r: nat, p: Phase): State {
    s.(phase := s.phase[r := p])
  }

  function Logged(s: State, r: nat, report: Report): State {
    s.(log := s.log + [(r, report)])
  }

  /** A delegated request after its exchange moved to `e`: a closed exchange has
      answered, what is left is the decrement of signalTermination. */
  function Exchanged(s: State, r: nat, init: seq<Delegate>, e: Issued): State {
    var s' := s.(exchange := s.exchange[r := Talk(init, e)]);
    if e.counter > 0 then Move(s', r, Delegating)
    else Move(Logged(s', r, Delegated(if e.trace == [] then Asked else e.trace[|e.trace| - 1])), r, Finishing)
  }

  function Step(s: State, a: Label): State
    requires Allowed(s, a)
  {
    match a
    case TestFlag(r) =>
      if s.flag then Move(Logged(s, r, TemporalReject), r, Done) else Move(s, r, Admitted)
    case TurnAway(r, httpStatus, code) => Move(Logged(s, r, Error(httpStatus, code)), r, Done)
    case Start(r) => Move(s.(counter := s.counter + 1, started := s.started + [r]), r, Running)
    case Execute(r, x, doReply, issued) =>
      (match React(x, doReply)
       case Respond(report) => Move(Logged(s, r, report), r, Finishing)
       case Park => Move(s.(mutex := Held(r), flag := true), r, Parking)
       case FanOut(ds) => Exchanged(s, r, ds, issued))
    case Append(r) =>
      Move(s.(list := s.list + [r], arrived := s.arrived + [r], mutex := Free), r, Finishing)
    case AnswerDelegate(r, k, st, issued) =>
      var e := s.exchange[r];
      if e.state.counter <= 0 then s.(exchange := s.exchange[r := e.(state := issued)])
      else Exchanged(s, r, e.init, issued)
    case Decrement(r) =>
      Move(s.(counter := s.counter - 1, finished := s.finished + [r]), r, if s.counter - 1 == 0 then SawZero else Done)
    case TestHalted(r) => Move(s, r, if s.flag then WantsDrain else Done)
    case Lock(r) => Move(s.(mutex := Held(r)), r, Drain)
    case DrainOne(r, x) =>
      Logged(s, s.list[s.cursor], ReactParked(x)).(cursor := s.cursor + 1, drained := s.drained + [s.list[s.cursor]])
    case Clear(r) => Move(s.(list := [], cursor := 0), r, Cleared)
    case Unlock(r) => Move(s.(flag := false, mutex := Free), r, Done)
    case Throw(r) =>
      Move(Logged(s.(counter := s.counter - 1, finished := s.finished + [r]), r, Error(500, OtherError(-1))), r, Done)
  }

  /** The state a run leads to; labels that are not enabled are skipped. */
  function Run(s: State, labels: seq<Label>): State {
    if labels == [] then s
    else
      var s' := Run(s, labels[..|labels| - 1]);
      var a := labels[|labels| - 1];
      if Enabled(s', a) then Step(s', a) else s'
  }

  lemma {:induction false} RunAppend(s: State, a: seq<Label>, b: seq<Label>)
    ensures Run(s, a + b) == Run(Run(s, a), b)
  {
    if b == [] {
      assert a + b == a;
    } else {
      RunAppend(s, a, b[..|b| - 1]);
      assert (a + b)[..|a + b| - 1] == a + b[..|b| - 1];
    }
  }

  predicate ExceptionFree(labels: seq<Label>) {
    forall i :: 0 <= i < |labels| ==> !labels[i].Throw?
  }

  // ------------------------------------------------------------------
  // Invariants
  // ------------------------------------------------------------------

  function InFlight(phase: map<nat, Phase>): set<nat> {
    set r | r in phase && Counted(phase[r])
  }

  function Count(log: seq<(nat, Report)>, r: nat): nat {
    if log == [] then 0 else Count(log[..|log| - 1], r) + (if log[|log| - 1].0 == r then 1 else 0)
  }

  function Occurs(xs: seq<nat>, r: nat): nat {
    if xs == [] then 0 else (if xs[0] == r then 1 else 0) + Occurs(xs[1..], r)
  }

  /** Conservation: the counter is the number of requests counted. */
  ghost predicate Conserved(s: State) {
    && s.counter == |InFlight(s.phase)|
    && s.counter == |s.started| - |s.finished|
  }

  /** Request `r` is incremented at most once and decremented at most once,
      and is in flight exactly between the two. */
  ghost predicate CountedOnce(s: State, r: nat) {
    && Occurs(s.finished, r) <= Occurs(s.started, r) <= 1
    && (r in s.phase && Counted(s.phase[r]) <==> Occurs(s.started, r) == 1 && Occurs(s.finished, r) == 0)
    && (Occurs(s.started, r) == 1 ==> r in s.phase && !s.phase[r].Admitted?)
  }

  predicate OwnerIs(s: State, p: Phase) {
    s.mutex.Held? && s.mutex.owner in s.phase && s.phase[s.mutex.owner] == p
  }

  ghost predicate Locking(s: State) {
    && (forall r :: r in s.phase && OwnsMutex(s.phase[r]) ==> s.mutex == Held(r))
    && (s.mutex.Held? ==> s.mutex.owner in s.phase && OwnsMutex(s.phase[s.mutex.owner]))
    && s.cursor <= |s.list|
    && (s.cursor > 0 ==> OwnerIs(s, Drain))
    && (OwnerIs(s, Cleared) ==> s.list == [])
  }

  /** The flag is set exactly while requests are parked, or one is just being
      parked, or the list has just been cleared. */
  ghost predicate FlagMeaning(s: State) {
    && (s.list != [] || OwnerIs(s, Parking) ==> s.flag)
    && (s.flag ==> s.list != [] || OwnerIs(s, Parking) || OwnerIs(s, Cleared))
  }

  /** No lost wake-up. */
  ghost predicate Wakeful(s: State) {
    s.list != [] ==> s.flag && (s.counter > 0 || exists r :: r in s.phase && Pending(s.phase[r]))
  }

  /** Requests are drained in the order in which they were parked. */
  ghost predicate InOrder(s: State) {
    s.cursor <= |s.list| && s.arrived == s.drained + s.list[s.cursor..]
  }

  /** A settled request has one response, or waits for one in the list, once;
      any other request has none and does not wait. */
  ghost predicate AnsweredOnce(s: State, r: nat) {
    && s.cursor <= |s.list|
    && Count(s.log, r) + Occurs(s.list[s.cursor..], r) == if r in s.phase && Settled(s.phase[r]) then 1 else 0
  }

  /** The exchange of a delegated request is open exactly while the request waits. */
  ghost predicate Exchanging(s: State) {
    && (forall r :: r in s.phase && s.phase[r].Delegating? ==> r in s.exchange)
    && forall r :: r in s.exchange ==>
         && r in s.phase
         && (s.exchange[r].state.counter > 0 <==> s.phase[r].Delegating?)
         && !s.phase[r].Running? && !s.phase[r].Admitted? && !s.phase[r].Parking?
  }

  // ------------------------------------------------------------------
  // Every step keeps them
  // ------------------------------------------------------------------

  lemma MoveCount(phase: map<nat, Phase>, r: nat, p: Phase)
    ensures |InFlight(phase[r := p])| + (if r in phase && Counted(phase[r]) then 1 else 0)
         == |InFlight(phase)| + (if Counted(p) then 1 else 0)
  {
    var before, after := InFlight(phase), InFlight(phase[r := p]);
    var others := before - {r};
    assert before == if r in phase && Counted(phase[r]) then others + {r} else others;
    assert after == if Counted(p) then others + {r} else others;
  }

  lemma {:induction false} CountAdd(log: seq<(nat, Report)>, r: nat, report: Report, q: nat)
    ensures Count(log + [(r, report)], q) == Count(log, q) + (if q == r then 1 else 0)
  {
    assert (log + [(r, report)])[..|log|] == log;
  }

  lemma {:induction false} OccursAdd(xs: seq<nat>, x: nat, r: nat)
    ensures Occurs(xs + [x], r) == Occurs(xs, r) + (if x == r then 1 else 0)
  {
    if xs != [] {
      assert (xs + [x])[1..] == xs[1..] + [x];
      OccursAdd(xs[1..], x, r);
    }
  }

  lemma InFlightPositive(s: State, r: nat)
    requires Conserved(s) && r in s.phase && Counted(s.phase[r])
    ensures s.counter > 0
  {
    assert r in InFlight(s.phase);
  }

  /** Every exchange satisfies the batch invariant. */
  ghost predicate ExchangesSound(s: State) {
    forall r :: r in s.exchange ==> Sound(s.exchange[r].init, s.exchange[r].state)
  }

  /** What the delegate protocol guarantees of the exchange a label leads to:
      it is sound, and a closed one stays closed. */
  ghost predicate SoundLabel(s: State, a: Label)
    requires Allowed(s, a)
  {
    && (a.Execute? && React(a.x, a.doReply).FanOut? ==> Sound(a.x.delegates, a.issued))
    && (a.AnswerDelegate? ==>
          && Sound(s.exchange[a.r].init, a.issued)
          && (s.exchange[a.r].state.counter <= 0 ==> a.issued.counter <= 0))
  }

  lemma FaithfulIsSound(s: State, a: Label)
    requires Enabled(s, a) && ExchangesSound(s)
    ensures SoundLabel(s, a)
  {
    if a.Execute? && React(a.x, a.doReply).FanOut? {
      IssuedIsSound(a.x.delegates, a.issued);
    } else if a.AnswerDelegate? {
      AnsweredIsSound(s.exchange[a.r], a.k, a.st, a.issued);
    }
  }

  lemma IssuedIsSound(ds: seq<Delegate>, issued: Issued)
    requires ds != [] && issued == Issue(ToFollowUp, ds)
    ensures Sound(ds, issued)
  {
    IssueIsSound(ds);
  }

  lemma AnsweredIsSound(t: Talk, k: nat, st: Status, issued: Issued)
    requires Sound(t.init, t.state) && k < |t.state.waiting| && issued == PutAnswer(ToFollowUp, t.state, k, st)
    ensures Sound(t.init, issued)
    ensures t.state.counter <= 0 ==> issued.counter <= 0
  {
    AnswerIsSound(t.init, t.state, k, st);
  }

  lemma ExchangedSound(s: State, r: nat, init: seq<Delegate>, e: Issued)
    requires ExchangesSound(s) && Sound(init, e)
    ensures ExchangesSound(Exchanged(s, r, init, e))
  {
  }

  lemma ExecuteSound(s: State, a: Label)
    requires a.Execute? && Allowed(s, a) && SoundLabel(s, a) && ExchangesSound(s)
    ensures ExchangesSound(Step(s, a))
  {
    if React(a.x, a.doReply).FanOut? { ExchangedSound(s, a.r, a.x.delegates, a.issued); }
  }

  lemma AnswerSound(s: State, a: Label)
    requires a.AnswerDelegate? && Allowed(s, a) && SoundLabel(s, a) && ExchangesSound(s)
    ensures ExchangesSound(Step(s, a))
  {
    ExchangedSound(s, a.r, s.exchange[a.r].init, a.issued);
  }

  lemma StepSound(s: State, a: Label)
    requires Allowed(s, a) && SoundLabel(s, a) && ExchangesSound(s)
    ensures ExchangesSound(Step(s, a))
  {
    if a.Execute? {
      ExecuteSound(s, a);
    } else if a.AnswerDelegate? {
      AnswerSound(s, a);
    } else {
      assert Step(s, a).exchange == s.exchange;
    }
  }

  lemma StepExchanging(s: State, a: Label)
    requires Allowed(s, a) && SoundLabel(s, a) && Exchanging(s)
    ensures Exchanging(Step(s, a))
  {
    if Talks(a) {
      TalkExchanging(s, a);
    } else {
      MoveExchanging(s, Step(s, a), a.r);
    }
  }

  /** A move of a request that is not delegated, before or after. */
  lemma MoveExchanging(s: State, s': State, r: nat)
    requires Exchanging(s) && s'.exchange == s.exchange && r in s'.phase && s'.phase == s.phase[r := s'.phase[r]]
    requires !s'.phase[r].Delegating? && (r in s.phase ==> !s.phase[r].Delegating?)
    requires r in s.exchange ==> !s'.phase[r].Running? && !s'.phase[r].Admitted? && !s'.phase[r].Parking?
    ensures Exchanging(s')
  {
    assert forall q :: q in s'.phase && q != r ==> q in s.phase && s'.phase[q] == s.phase[q];
  }

  lemma ExchangedExchanging(s: State, r: nat, init: seq<Delegate>, e: Issued)
    requires Exchanging(s)
    ensures Exchanging(Exchanged(s, r, init, e))
  {
  }

  lemma ClosedExchanging(s: State, r: nat, e: Issued)
    requires Exchanging(s) && r in s.exchange && s.exchange[r].state.counter <= 0 && e.counter <= 0
    ensures Exchanging(s.(exchange := s.exchange[r := s.exchange[r].(state := e)]))
  {
  }

  lemma TalkExchanging(s: State, a: Label)
    requires Talks(a) && Allowed(s, a) && SoundLabel(s, a) && Exchanging(s)
    ensures Exchanging(Step(s, a))
  {
    if a.AnswerDelegate? {
      if s.exchange[a.r].state.counter > 0 {
        ExchangedExchanging(s, a.r, s.exchange[a.r].init, a.issued);
      } else {
        ClosedExchanging(s, a.r, a.issued);
      }
    } else if React(a.x, a.doReply).FanOut? {
      ExchangedExchanging(s, a.r, a.x.delegates, a.issued);
    }
  }

  /** The phases change at most for the request the label names, and what is
      counted changes with them. */
  lemma StepMoves(s: State, a: Label)
    requires Allowed(s, a) && Exchanging(s)
    ensures var s' := Step(s, a);
            && (s'.phase == s.phase || (a.r in s'.phase && s'.phase == s.phase[a.r := s'.phase[a.r]]))
            && s'.counter - s.counter == (if a.r in s'.phase && Counted(s'.phase[a.r]) then 1 else 0)
                                       - (if a.r in s.phase && Counted(s.phase[a.r]) then 1 else 0)
            && |s'.started| - |s'.finished| - (|s.started| - |s.finished|) == s'.counter - s.counter
  {
    if Talks(a) {
      TalkMoves(s, a);
    } else if Locks(a) {
      LockMoves(s, a);
    }
  }

  lemma ExchangedMoves(s: State, r: nat, init: seq<Delegate>, e: Issued)
    ensures var s' := Exchanged(s, r, init, e);
            && s'.phase == s.phase[r := if e.counter > 0 then Delegating else Finishing]
            && s'.counter == s.counter && s'.started == s.started && s'.finished == s.finished
            && s'.mutex == s.mutex && s'.list == s.list && s'.cursor == s.cursor && s'.flag == s.flag
  {
  }

  lemma TalkMoves(s: State, a: Label)
    requires Talks(a) && Allowed(s, a) && Exchanging(s)
    ensures var s' := Step(s, a);
            && (s'.phase == s.phase || (a.r in s'.phase && s'.phase == s.phase[a.r := s'.phase[a.r]]))
            && a.r in s'.phase && a.r in s.phase && (Counted(s'.phase[a.r]) <==> Counted(s.phase[a.r]))
            && !s'.phase[a.r].Admitted? && !s.phase[a.r].Admitted?
            && s'.counter == s.counter && s'.started == s.started && s'.finished == s.finished
  {
    if a.Execute? && React(a.x, a.doReply).FanOut? {
      ExchangedMoves(s, a.r, a.x.delegates, a.issued);
    } else if a.AnswerDelegate? && s.exchange[a.r].state.counter > 0 {
      ExchangedMoves(s, a.r, s.exchange[a.r].init, a.issued);
    }
  }

  lemma LockMoves(s: State, a: Label)
    requires Locks(a) && Allowed(s, a)
    ensures var s' := Step(s, a);
            && (s'.phase == s.phase || (a.r in s'.phase && s'.phase == s.phase[a.r := s'.phase[a.r]]))
            && a.r in s'.phase && a.r in s.phase && (Counted(s'.phase[a.r]) <==> Counted(s.phase[a.r]))
            && s'.counter == s.counter && s'.started == s.started && s'.finished == s.finished
  {
  }

  lemma StepConserved(s: State, a: Label)
    requires Allowed(s, a) && Conserved(s) && Exchanging(s)
    ensures Conserved(Step(s, a))
  {
    StepMoves(s, a);
    var s' := Step(s, a);
    if s'.phase != s.phase {
      MoveCount(s.phase, a.r, s'.phase[a.r]);
    }
  }

  /** The labels come in three groups: those that involve an exchange, those
      under the mutex, and those that count, test or give up. */
  predicate Talks(a: Label) {
    a.Execute? || a.AnswerDelegate?
  }

  predicate Locks(a: Label) {
    a.Append? || a.Lock? || a.DrainOne? || a.Clear? || a.Unlock?
  }

  lemma StepCountedOnce(s: State, a: Label, r: nat)
    requires Allowed(s, a) && CountedOnce(s, r) && Exchanging(s)
    ensures CountedOnce(Step(s, a), r)
  {
    if Talks(a) {
      TalkCountedOnce(s, a, r);
    } else if a.Start? || a.Decrement? || a.Throw? {
      CountCountedOnce(s, a, r);
    }
  }

  lemma TalkCountedOnce(s: State, a: Label, r: nat)
    requires Talks(a) && Allowed(s, a) && CountedOnce(s, r) && Exchanging(s)
    ensures CountedOnce(Step(s, a), r)
  {
    TalkMoves(s, a);
  }

  lemma CountCountedOnce(s: State, a: Label, r: nat)
    requires a.Start? || a.Decrement? || a.Throw?
    requires Allowed(s, a) && CountedOnce(s, r)
    ensures CountedOnce(Step(s, a), r)
  {
    OccursAdd(s.started, a.r, r);
    OccursAdd(s.finished, a.r, r);
  }

  lemma StepLocking(s: State, a: Label)
    requires Allowed(s, a) && Locking(s) && Exchanging(s)
    ensures Locking(Step(s, a))
  {
    if Talks(a) {
      TalkLocking(s, a);
    } else if Locks(a) {
      LockLocking(s, a);
    }
  }

  lemma TalkLocking(s: State, a: Label)
    requires Talks(a) && Allowed(s, a) && Locking(s) && Exchanging(s)
    ensures Locking(Step(s, a))
  {
    if a.Execute? && React(a.x, a.doReply).FanOut? {
      ExchangedMoves(s, a.r, a.x.delegates, a.issued);
    } else if a.AnswerDelegate? && s.exchange[a.r].state.counter > 0 {
      ExchangedMoves(s, a.r, s.exchange[a.r].init, a.issued);
    }
  }

  lemma LockLocking(s: State, a: Label)
    requires Locks(a) && Allowed(s, a) && Locking(s)
    ensures Locking(Step(s, a))
  {
  }

  lemma StepFlagMeaning(s: State, a: Label)
    requires Allowed(s, a) && Locking(s) && Exchanging(s) && FlagMeaning(s)
    ensures FlagMeaning(Step(s, a))
  {
    if Talks(a) {
      TalkFlagMeaning(s, a);
    } else if Locks(a) {
      LockFlagMeaning(s, a);
    } else {
      SameFlagMeaning(s, Step(s, a), a.r);
    }
  }

  /** Neither the flag nor the list nor the owner of the mutex changes. */
  lemma SameFlagMeaning(s: State, s': State, r: nat)
    requires Locking(s) && FlagMeaning(s) && s'.flag == s.flag && s'.list == s.list && s'.mutex == s.mutex
    requires r in s'.phase && s'.phase == s.phase[r := s'.phase[r]]
    requires !OwnsMutex(s'.phase[r]) && (r in s.phase ==> !OwnsMutex(s.phase[r]))
    ensures FlagMeaning(s')
  {
    assert s.mutex.Held? ==> s.mutex.owner != r;
  }

  lemma TalkFlagMeaning(s: State, a: Label)
    requires Talks(a) && Allowed(s, a) && Locking(s) && Exchanging(s) && FlagMeaning(s)
    ensures FlagMeaning(Step(s, a))
  {
    var s' := Step(s, a);
    if a.Execute? && React(a.x, a.doReply).Park? {
      assert OwnerIs(s', Parking);
    } else if a.Execute? {
      if React(a.x, a.doReply).FanOut? { ExchangedMoves(s, a.r, a.x.delegates, a.issued); }
      SameFlagMeaning(s, s', a.r);
    } else if s.exchange[a.r].state.counter > 0 {
      ExchangedMoves(s, a.r, s.exchange[a.r].init, a.issued);
      SameFlagMeaning(s, s', a.r);
    }
  }

  lemma LockFlagMeaning(s: State, a: Label)
    requires Locks(a) && Allowed(s, a) && Locking(s) && FlagMeaning(s)
    ensures FlagMeaning(Step(s, a))
  {
    assert a.Append? ==> OwnerIs(s, Parking);
    assert a.Clear? ==> OwnerIs(s, Drain) && OwnerIs(Step(s, a), Cleared);
    assert a.Unlock? ==> OwnerIs(s, Cleared);
  }

  /** Only the steps under the mutex touch the list. */
  lemma ListFrame(s: State, a: Label)
    requires Allowed(s, a) && !a.DrainOne? && !a.Append? && !a.Clear?
    ensures var s' := Step(s, a);
            s'.list == s.list && s'.cursor == s.cursor && s'.drained == s.drained && s'.arrived == s.arrived
  {
  }

  lemma StepInOrder(s: State, a: Label)
    requires Allowed(s, a) && Locking(s) && InOrder(s)
    ensures InOrder(Step(s, a))
  {
    if a.DrainOne? {
      DrainInOrder(s, a.r, a.x);
    } else if a.Append? {
      AppendInOrder(s, a.r);
    } else if a.Clear? {
      ClearInOrder(s, a.r);
    } else {
      ListFrame(s, a);
    }
  }

  lemma DrainInOrder(s: State, r: nat, x: Execution)
    requires Allowed(s, DrainOne(r, x)) && InOrder(s)
    ensures InOrder(Step(s, DrainOne(r, x)))
  {
    assert s.list[s.cursor..] == [s.list[s.cursor]] + s.list[s.cursor + 1..];
  }

  lemma AppendInOrder(s: State, r: nat)
    requires Allowed(s, Append(r)) && Locking(s) && InOrder(s)
    ensures InOrder(Step(s, Append(r)))
  {
    assert s.cursor == 0 && s.list[0..] == s.list;
    assert (s.list + [r])[0..] == s.list + [r];
  }

  lemma ClearInOrder(s: State, r: nat)
    requires Allowed(s, Clear(r)) && InOrder(s)
    ensures InOrder(Step(s, Clear(r)))
  {
    assert s.list[s.cursor..] == [];
    assert s.drained + [] == s.drained;
  }

  lemma StepAnsweredOnce(s: State, a: Label, r: nat)
    requires Allowed(s, a) && Locking(s) && Exchanging(s) && AnsweredOnce(s, r)
    ensures AnsweredOnce(Step(s, a), r)
  {
    if Talks(a) {
      TalkAnsweredOnce(s, a, r);
    } else if Locks(a) {
      LockAnsweredOnce(s, a, r);
    } else {
      PlainAnsweredOnce(s, a, r);
    }
  }

  /** A response to `q` for a request that settles with it. */
  lemma ReportedOnce(s: State, q: nat, report: Report, p: Phase, r: nat)
    requires AnsweredOnce(s, r) && Settled(p) && !(q in s.phase && Settled(s.phase[q]))
    ensures AnsweredOnce(Move(Logged(s, q, report), q, p), r)
  {
    CountAdd(s.log, q, report, r);
  }

  /** Neither a move among the unsettled or the settled phases nor the other fields matter. */
  lemma MovedOnce(s: State, s': State, q: nat, p: Phase, r: nat)
    requires AnsweredOnce(s, r) && q in s.phase && (Settled(p) <==> Settled(s.phase[q]))
    requires s'.phase == s.phase[q := p] && s'.log == s.log && s'.list == s.list && s'.cursor == s.cursor
    ensures AnsweredOnce(s', r)
  {
  }

  lemma ExchangedAnsweredOnce(s: State, q: nat, init: seq<Delegate>, e: Issued, r: nat)
    requires AnsweredOnce(s, r) && q in s.phase && !Settled(s.phase[q])
    ensures AnsweredOnce(Exchanged(s, q, init, e), r)
  {
    if e.counter > 0 {
      MovedOnce(s, Exchanged(s, q, init, e), q, Delegating, r);
    } else {
      var s1 := s.(exchange := s.exchange[q := Talk(init, e)]);
      MovedOnce(s, s1, q, s.phase[q], r);
      ReportedOnce(s1, q, Delegated(if e.trace == [] then Asked else e.trace[|e.trace| - 1]), Finishing, r);
    }
  }

  lemma TalkAnsweredOnce(s: State, a: Label, r: nat)
    requires Talks(a) && Allowed(s, a) && Exchanging(s) && AnsweredOnce(s, r)
    ensures AnsweredOnce(Step(s, a), r)
  {
    match a
    case Execute(q, x, doReply, issued) =>
      var reaction := React(x, doReply);
      if reaction.Respond? {
        ReportedOnce(s, q, reaction.report, Finishing, r);
      } else if reaction.FanOut? {
        ExchangedAnsweredOnce(s, q, reaction.delegates, issued, r);
      }
    case AnswerDelegate(q, k, st, issued) =>
      if s.exchange[q].state.counter > 0 {
        ExchangedAnsweredOnce(s, q, s.exchange[q].init, issued, r);
      }
  }

  lemma LockAnsweredOnce(s: State, a: Label, r: nat)
    requires Locks(a) && Allowed(s, a) && Locking(s) && AnsweredOnce(s, r)
    ensures AnsweredOnce(Step(s, a), r)
  {
    if a.DrainOne? {
      assert s.list[s.cursor..][1..] == s.list[s.cursor + 1..];
      CountAdd(s.log, s.list[s.cursor], ReactParked(a.x), r);
    } else if a.Append? {
      assert s.cursor == 0 && s.list[0..] == s.list;
      OccursAdd(s.list, a.r, r);
      assert Step(s, a).list[0..] == s.list + [a.r];
    } else if a.Clear? {
      assert s.list[s.cursor..] == [];
    }
  }

  lemma PlainAnsweredOnce(s: State, a: Label, r: nat)
    requires !Talks(a) && !Locks(a) && Allowed(s, a) && AnsweredOnce(s, r)
    ensures AnsweredOnce(Step(s, a), r)
  {
    var s' := Step(s, a);
    if a.TestFlag? {
      if s.flag { ReportedOnce(s, a.r, TemporalReject, Done, r); }
    } else if a.TurnAway? {
      ReportedOnce(s, a.r, Error(a.httpStatus, a.code), Done, r);
    } else if a.Throw? {
      var s1 := s.(counter := s.counter - 1, finished := s.finished + [a.r]);
      MovedOnce(s, s1, a.r, s.phase[a.r], r);
      ReportedOnce(s1, a.r, Error(500, OtherError(-1)), Done, r);
    } else {
      MovedOnce(s, s', a.r, s'.phase[a.r], r);
    }
  }

  /** The step of a thread that saw zero leaves nobody behind: it goes on to
      test, to drain, or to clear the list, or it finds the flag clear. */
  lemma StepWakeful(s: State, a: Label)
    requires Allowed(s, a) && Locking(s) && Exchanging(s) && Conserved(s) && FlagMeaning(s) && Wakeful(s)
    requires !a.Throw?
    ensures Wakeful(Step(s, a))
  {
    StepConserved(s, a);
    if Talks(a) {
      TalkWakeful(s, a);
    } else if Locks(a) {
      LockWakeful(s, a);
    } else {
      PlainWakeful(s, a);
    }
  }

  /** A request that is counted answers or moves on counted, and a late answer moves nobody. */
  lemma TalkWakeful(s: State, a: Label)
    requires Talks(a) && Allowed(s, a) && Exchanging(s) && Conserved(s) && Wakeful(s)
    ensures Wakeful(Step(s, a))
  {
    TalkMoves(s, a);
    if Counted(s.phase[a.r]) {
      InFlightPositive(s, a.r);
    } else {
      assert a.AnswerDelegate? && Step(s, a).phase == s.phase;
    }
  }

  lemma LockWakeful(s: State, a: Label)
    requires Locks(a) && Allowed(s, a) && Locking(s) && FlagMeaning(s) && Wakeful(s) && Conserved(Step(s, a))
    ensures Wakeful(Step(s, a))
  {
    var s' := Step(s, a);
    if a.Append? {
      assert OwnerIs(s, Parking);
      InFlightPositive(s', a.r);
    } else if a.Lock? || a.DrainOne? {
      assert a.r in s'.phase && Pending(s'.phase[a.r]);
    } else if a.Unlock? {
      assert OwnerIs(s, Cleared);
    }
  }

  lemma PlainWakeful(s: State, a: Label)
    requires !Talks(a) && !Locks(a) && !a.Throw? && Allowed(s, a) && Conserved(s) && Wakeful(s)
    ensures Wakeful(Step(s, a))
  {
    var s' := Step(s, a);
    if s.list == [] || a.Start? {
    } else if a.Decrement? || a.TestHalted? {
      InFlightNotNegative(s, a);
      assert s'.counter > 0 || Pending(s'.phase[a.r]);
    } else if s.counter <= 0 {
      var r :| r in s.phase && Pending(s.phase[r]);
      assert r in s'.phase && Pending(s'.phase[r]);
    }
  }

  lemma InFlightNotNegative(s: State, a: Label)
    requires Allowed(s, a) && Conserved(s)
    ensures s.counter >= 0 && (a.Decrement? ==> s.counter >= 1)
  {
    if a.Decrement? { InFlightPositive(s, a.r); }
  }

  // ------------------------------------------------------------------
  // Whole runs
  // ------------------------------------------------------------------

  ghost predicate Invariant(s: State) {
    && Conserved(s) && Locking(s) && FlagMeaning(s) && InOrder(s) && Exchanging(s) && ExchangesSound(s)
    && (forall r :: CountedOnce(s, r))
    && (forall r :: AnsweredOnce(s, r))
  }

  lemma StepInvariant(s: State, a: Label)
    requires Enabled(s, a) && Invariant(s)
    ensures Invariant(Step(s, a))
  {
    FaithfulIsSound(s, a);
    StepSound(s, a);
    StepExchanging(s, a);
    StepConserved(s, a);
    StepLocking(s, a);
    StepFlagMeaning(s, a);
    StepInOrder(s, a);
    forall r ensures CountedOnce(Step(s, a), r) { StepCountedOnce(s, a, r); }
    forall r ensures AnsweredOnce(Step(s, a), r) { StepAnsweredOnce(s, a, r); }
  }

  /** In every reachable state: the counter is the number of requests started
      and not finished, each is counted once, the flag and the mutex mean what
      they should, parked requests are drained in order, and nobody is answered
      twice. */
  lemma {:induction false} RunInvariant(labels: seq<Label>)
    ensures Invariant(Run(INITIAL, labels))
  {
    if labels == [] {
      assert InFlight(INITIAL.phase) == {};
    } else {
      RunInvariant(labels[..|labels| - 1]);
      var s, a := Run(INITIAL, labels[..|labels| - 1]), labels[|labels| - 1];
      if Enabled(s, a) { StepInvariant(s, a); }
    }
  }

  /** No lost wake-up, in every reachable state of an exception-free run. */
  lemma {:induction false} NoLostWakeup(labels: seq<Label>)
    requires ExceptionFree(labels)
    ensures Wakeful(Run(INITIAL, labels))
  {
    if labels != [] {
      NoLostWakeup(labels[..|labels| - 1]);
      RunInvariant(labels[..|labels| - 1]);
      var s, a := Run(INITIAL, labels[..|labels| - 1]), labels[|labels| - 1];
      assert !a.Throw?;
      if Enabled(s, a) { StepWakeful(s, a); }
    }
  }

  /** When all requests of an exception-free run are done, every one of them,
      parked or not, was answered exactly once, and the service is open again. */
  lemma QuietMeansAnswered(labels: seq<Label>)
    requires ExceptionFree(labels)
    requires forall r :: r in Run(INITIAL, labels).phase ==> Run(INITIAL, labels).phase[r].Done?
    ensures var s := Run(INITIAL, labels);
            && s.counter == 0 && s.list == [] && !s.flag && s.mutex.Free? && s.drained == s.arrived
            && forall r: nat :: Count(s.log, r) == if r in s.phase then 1 else 0
  {
    var s := Run(INITIAL, labels);
    RunInvariant(labels);
    NoLostWakeup(labels);
    assert InFlight(s.phase) == {};
    forall r: nat ensures Count(s.log, r) == if r in s.phase then 1 else 0 {
      assert AnsweredOnce(s, r);
    }
  }

  /** The end of a drain: everything parked so far was drained, in order, the
      list is empty and the flag is clear. */
  lemma DrainEnds(s: State, r: nat)
    requires Locking(s) && InOrder(s) && At(s, r, Cleared)
    ensures var s' := Step(s, Unlock(r));
            s'.list == [] && !s'.flag && s'.mutex.Free? && s'.drained == s'.arrived
  {
    assert s.mutex == Held(r) && s.list == [] && s.cursor == 0;
    assert s.drained + s.list[s.cursor..] == s.drained;
  }

  /** Nobody blocks: whatever execute yields, a request that is not done can go
      on, or the owner of the mutex can. */
  lemma SomebodyCanGoOn(s: State, r: nat, x: Execution, doReply: bool) returns (a: Label)
    requires Invariant(s) && r in s.phase && !s.phase[r].Done?
    ensures Enabled(s, a) && !a.Throw? && !a.TestFlag?
    ensures s.mutex == Held(a.r) || (a.r == r && (a.Execute? ==> a.x == x && a.doReply == doReply))
  {
    var q := if s.mutex.Held? then s.mutex.owner else r;
    match s.phase[q]
    case Admitted => a := Start(q);
    case Running =>
      var reaction := React(x, doReply);
      a := Execute(q, x, doReply,
                   if reaction.FanOut? then Issue(ToFollowUp, reaction.delegates) else Issued(0, [], [], []));
    case Parking => a := Append(q);
    case Delegating =>
      var e := s.exchange[q].state;
      assert Sound(s.exchange[q].init, e);
      a := AnswerDelegate(q, 0, Status(true, 200), PutAnswer(ToFollowUp, e, 0, Status(true, 200)));
    case Finishing => a := Decrement(q);
    case SawZero => a := TestHalted(q);
    case WantsDrain => a := Lock(q);
    case Drain => a := if s.cursor < |s.list| then DrainOne(q, x) else Clear(q);
    case Cleared => a := Unlock(q);
  }

  // ------------------------------------------------------------------
  // The exception exits of runRequest
  // ------------------------------------------------------------------

  /** The catch blocks ignore the result of doneRunRequest: an exception loses
      the wake-up exactly when it brings the counter to zero while requests are
      parked and nobody else has yet to test or drain. */
  lemma ThrowLosesWakeup(s: State, r: nat)
    requires Invariant(s) && Wakeful(s) && At(s, r, Running)
    ensures Wakeful(Step(s, Throw(r))) <==>
            !(s.list != [] && s.counter == 1 && forall q :: q in s.phase ==> !Pending(s.phase[q]))
  {
    var s' := Step(s, Throw(r));
    InFlightPositive(s, r);
    assert forall q :: q in s.phase && q != r ==> s'.phase[q] == s.phase[q];
  }

  /** The exception takes the last count while requests are parked and nobody else
      has yet to test or drain. */
  ghost predicate LosesWakeup(s: State, a: Label) {
    a.Throw? && s.list != [] && s.counter == 1 && forall q :: q in s.phase ==> !Pending(s.phase[q])
  }

  /** Wakeful in every state of the run. */
  ghost predicate WakefulThroughout(labels: seq<Label>) {
    Wakeful(Run(INITIAL, labels)) && (labels == [] || WakefulThroughout(labels[..|labels| - 1]))
  }

  /** No step of the run loses the wake-up. */
  ghost predicate NoneLoses(labels: seq<Label>) {
    labels == [] ||
    (var before, a := labels[..|labels| - 1], labels[|labels| - 1];
     var s := Run(INITIAL, before);
     NoneLoses(before) && (Enabled(s, a) ==> !LosesWakeup(s, a)))
  }

  lemma WakefulStepExactly(s: State, a: Label)
    requires Enabled(s, a) && Invariant(s) && Wakeful(s)
    ensures Wakeful(Step(s, a)) <==> !LosesWakeup(s, a)
  {
    if a.Throw? { ThrowLosesWakeup(s, a.r); } else { StepWakeful(s, a); }
  }

  /** Over every run, exceptions included: no wake-up is ever lost if and only if no
      exception is taken that loses one. */
  lemma {:induction false} WakefulExactly(labels: seq<Label>)
    ensures WakefulThroughout(labels) <==> NoneLoses(labels)
  {
    if labels != [] {
      var before, a := labels[..|labels| - 1], labels[|labels| - 1];
      var s := Run(INITIAL, before);
      WakefulExactly(before);
      RunInvariant(before);
      if WakefulThroughout(before) && Enabled(s, a) { WakefulStepExactly(s, a); }
    }
  }

  /** Requests are parked and nobody is left to wake them. */
  ghost predicate Lost(s: State) {
    && s.list != [] && s.flag && s.mutex.Free?
    && (forall r :: r in s.phase ==> s.phase[r].Done?)
    && (forall r :: r in s.exchange ==> r in s.phase && s.exchange[r].state.counter <= 0)
  }

  /** A lost wake-up is never made good: whatever happens next, the parked requests
      stay parked and unanswered, since every new request is turned away. */
  lemma {:induction false} LostForever(s: State, labels: seq<Label>)
    requires Lost(s) && Invariant(s)
    ensures var s' := Run(s, labels);
            && Lost(s') && Invariant(s') && s'.list == s.list && s'.drained == s.drained
            && forall r :: r in s.list ==> Count(s'.log, r) == 0
  {
    var s' := Run(s, labels);
    if labels != [] {
      LostForever(s, labels[..|labels| - 1]);
      var t, a := Run(s, labels[..|labels| - 1]), labels[|labels| - 1];
      if Enabled(t, a) { LostStep(t, a); }
    }
    forall r | r in s.list ensures Count(s'.log, r) == 0 {
      ParkedUnanswered(s', r);
    }
  }

  lemma LostStep(s: State, a: Label)
    requires Lost(s) && Invariant(s) && Enabled(s, a)
    ensures var s' := Step(s, a); Lost(s') && Invariant(s') && s'.list == s.list && s'.drained == s.drained
  {
    assert a.TestFlag? || a.AnswerDelegate?;
    StepInvariant(s, a);
    if a.AnswerDelegate? { FaithfulIsSound(s, a); }
  }

  lemma {:induction false} OccursIn(xs: seq<nat>, r: nat)
    ensures r in xs ==> Occurs(xs, r) >= 1
  {
    if xs != [] { OccursIn(xs[1..], r); }
  }

  lemma ParkedUnanswered(s: State, r: nat)
    requires Invariant(s) && s.mutex.Free? && r in s.list
    ensures Count(s.log, r) == 0
  {
    assert AnsweredOnce(s, r);
    assert s.cursor == 0 && s.list[0..] == s.list;
    OccursIn(s.list, r);
  }

  lemma RunAdd(s: State, labels: seq<Label>, a: Label)
    requires Enabled(Run(s, labels), a)
    ensures Run(s, labels + [a]) == Step(Run(s, labels), a)
  {
    assert (labels + [a])[..|labels|] == labels;
  }

  /** Two requests are running. */
  const TWO_RUNNING: State :=
    State(2, false, [], 0, Free, map[0 := Running, 1 := Running], map[], [], [], [], [0, 1], [])

  lemma TwoRunning()
    ensures Run(INITIAL, [TestFlag(0), TestFlag(1), Start(0), Start(1)]) == TWO_RUNNING
  {
    RunAdd(INITIAL, [], TestFlag(0));
    assert [] + [TestFlag(0)] == [TestFlag(0)];
    RunAdd(INITIAL, [TestFlag(0)], TestFlag(1));
    assert [TestFlag(0)] + [TestFlag(1)] == [TestFlag(0), TestFlag(1)];
    RunAdd(INITIAL, [TestFlag(0), TestFlag(1)], Start(0));
    assert [TestFlag(0), TestFlag(1)] + [Start(0)] == [TestFlag(0), TestFlag(1), Start(0)];
    RunAdd(INITIAL, [TestFlag(0), TestFlag(1), Start(0)], Start(1));
    assert [TestFlag(0), TestFlag(1), Start(0)] + [Start(1)] == [TestFlag(0), TestFlag(1), Start(0), Start(1)];
  }

  const PARK: Label := Execute(0, Failed(503, NeedExclusiveAccess), true, Issued(0, [], [], []))

  const PARKING: State := TWO_RUNNING.(mutex := Held(0), flag := true, phase := map[0 := Parking, 1 := Running])

  /** Request 0 parks while request 1 runs, and request 1 throws. */
  lemma ExceptionLeavesParkedRequest() returns (labels: seq<Label>)
    ensures Lost(Run(INITIAL, labels)) && Run(INITIAL, labels).list == [0]
    ensures |labels| == 8 && forall i :: 0 <= i < 7 ==> !labels[i].Throw?
  {
    TwoRunning();
    labels := [TestFlag(0), TestFlag(1), Start(0), Start(1)];
    assert Enabled(TWO_RUNNING, PARK) && Step(TWO_RUNNING, PARK) == PARKING;
    RunAdd(INITIAL, labels, PARK);
    labels := labels + [PARK];
    ParkedThenThrown(labels);
    labels := labels + [Append(0)] + [Decrement(0)] + [Throw(1)];
  }

  lemma ParkedThenThrown(labels: seq<Label>)
    requires Run(INITIAL, labels) == PARKING
    ensures var s := Run(INITIAL, labels + [Append(0)] + [Decrement(0)] + [Throw(1)]); Lost(s) && s.list == [0]
  {
    RunAdd(INITIAL, labels, Append(0));
    RunAdd(INITIAL, labels + [Append(0)], Decrement(0));
    RunAdd(INITIAL, labels + [Append(0)] + [Decrement(0)], Throw(1));
  }
}
