/** The service closure and runRequest as the program has them: fields updated
    in place (src/serviceClosure.hpp, src/serviceClosure.cpp, src/applicationImpl.cpp).
    Each method takes the steps of `RequestMachine`, undisturbed by others. */
module ServiceClosure {
  import opened Delegates
  import opened RequestMachine

  /** The turns of the drain's loop for the first `n` parked requests. */
  function Drained(list: seq<nat>, executions: nat -> Execution, n: nat): (l: seq<(nat, Report)>)
    requires n <= |list|
    ensures |l| == n
  {
    seq(n, i requires 0 <= i < n => (list[i], ReactParked(executions(i))))
  }

  lemma DrainedStep(list: seq<nat>, executions: nat -> Execution, n: nat)
    requires n < |list|
    ensures Drained(list, executions, n + 1) == Drained(list, executions, n) + [(list[n], ReactParked(executions(n)))]
  {
  }

  // ------------------------------------------------------------------
  // What is reported, by report
  // ------------------------------------------------------------------

  /** What an exchange ended with. */
  function LastOf(issued: Issued): Event {
    if issued.trace == [] then Asked else issued.trace[|issued.trace| - 1]
  }

  /** A parked request, executed with `x`, is answered with `report`. */
  predicate AnswersParked(x: Execution, report: Report) {
    match report
    case Answer => x == Executed([])
    case Error(status, code) =>
      x == Failed(status, code) || (x.Executed? && x.delegates != [] && status == 500 && code == LogicError)
    case _ => false
  }

  /** One entry for each request of the list, in its order. */
  ghost predicate AnswersAll(l: seq<(nat, Report)>, list: seq<nat>, executions: nat -> Execution) {
    && |l| == |list|
    && forall i :: 0 <= i < |l| ==> l[i].0 == list[i] && AnswersParked(executions(i), l[i].1)
  }

  predicate Parks(x: Execution, doReply: bool) { x == Failed(503, NeedExclusiveAccess) && doReply }

  predicate Waits(x: Execution, issued: Issued) { x.Executed? && x.delegates != [] && issued.counter > 0 }

  /** A request that neither parks nor waits for delegates is answered with `report`. */
  predicate Answers(x: Execution, doReply: bool, issued: Issued, report: Report) {
    match report
    case Answer => x == Executed([])
    case TemporalReject => x == Failed(503, TemporarilyUnavailable)
    case Error(status, code) =>
      || (x == Failed(status, code) && (status == 503 ==> code !in {TemporarilyUnavailable, NeedExclusiveAccess}))
      || (x == Failed(503, NeedExclusiveAccess) && !doReply && status == 405 && code == NotAllowed)
    case Delegated(last) => x.Executed? && x.delegates != [] && issued.counter <= 0 && last == LastOf(issued)
  }

  /** The fields of the closure. */
  datatype Fields = Fields(counter: int, flag: bool, list: seq<nat>, log: seq<(nat, Report)>)

  /** What a request that nobody interrupts makes of the fields: its own entry in the log,
      if it neither parks nor waits, and if it was the only one and the flag is set, one
      entry for each parked request. */
  ghost predicate Outcome(a: Fields, r: nat, x: Execution, doReply: bool, issued: Issued,
                          executions: nat -> Execution, b: Fields)
  {
    var k := if Parks(x, doReply) || Waits(x, issued) then 0 else 1;
    var list := if Parks(x, doReply) then a.list + [r] else a.list;
    && a.log <= b.log && |b.log| >= |a.log| + k
    && (k == 1 ==> b.log[|a.log|].0 == r && Answers(x, doReply, issued, b.log[|a.log|].1))
    && b.counter == (if Waits(x, issued) then a.counter + 1 else a.counter)
    && if !Waits(x, issued) && a.counter == 0 && (a.flag || Parks(x, doReply)) then
         b.list == [] && !b.flag && AnswersAll(b.log[|a.log| + k..], list, executions)
       else
         b.list == list && b.flag == (a.flag || Parks(x, doReply)) && |b.log| == |a.log| + k
  }

  lemma DrainedAnswers(list: seq<nat>, executions: nat -> Execution)
    ensures AnswersAll(Drained(list, executions, |list|), list, executions)
  {}

  // ------------------------------------------------------------------
  // A request left alone: its steps one after the other
  // ------------------------------------------------------------------

  function DrainTurns(s: State, r: nat, executions: nat -> Execution, n: nat): (t: State)
    requires At(s, r, Drain) && s.cursor == 0 && n <= |s.list|
    ensures At(t, r, Drain) && t.cursor == n && t.mutex == s.mutex
    ensures t.counter == s.counter && t.flag == s.flag && t.list == s.list
    ensures t.log == s.log + Drained(s.list, executions, n)
  {
    if n == 0 then
      assert s.log + Drained(s.list, executions, 0) == s.log;
      s
    else
      DrainedStep(s.list, executions, n - 1);
      Step(DrainTurns(s, r, executions, n - 1), DrainOne(r, executions(n - 1)))
  }

  /** All turns of the drain, clear, unlock. */
  function DrainAll(s: State, r: nat, executions: nat -> Execution): (t: State)
    requires At(s, r, Drain) && s.mutex == Held(r) && s.cursor == 0
    ensures At(t, r, Done) && t.mutex.Free? && t.cursor == 0
    ensures t.counter == s.counter && !t.flag && t.list == []
    ensures t.log == s.log + Drained(s.list, executions, |s.list|)
  {
    Step(Step(DrainTurns(s, r, executions, |s.list|), Clear(r)), Unlock(r))
  }

  /** Lock, and the drain. */
  function WholeDrain(s: State, r: nat, executions: nat -> Execution): (t: State)
    requires At(s, r, WantsDrain) && s.mutex.Free? && s.cursor == 0
    ensures At(t, r, Done) && t.mutex.Free? && t.cursor == 0
    ensures t.counter == s.counter && !t.flag && t.list == []
    ensures t.log == s.log + Drained(s.list, executions, |s.list|)
  {
    DrainAll(Step(s, Lock(r)), r, executions)
  }

  /** Decrement; on zero test the flag; if it is set, drain. */
  function Terminate(s: State, r: nat, executions: nat -> Execution): (t: State)
    requires At(s, r, Finishing) && s.mutex.Free? && s.cursor == 0
    ensures At(t, r, Done) && t.mutex.Free? && t.counter == s.counter - 1
    ensures s.counter == 1 && s.flag ==>
              !t.flag && t.list == [] && t.log == s.log + Drained(s.list, executions, |s.list|)
    ensures !(s.counter == 1 && s.flag) ==> t.flag == s.flag && t.list == s.list && t.log == s.log
  {
    var s1 := Step(s, Decrement(r));
    if s1.phase[r].Done? then s1
    else
      var s2 := Step(s1, TestHalted(r));
      if s2.phase[r].Done? then s2 else WholeDrain(s2, r, executions)
  }

  /** Execute, and the append of a request that parks. */
  function ExecuteAndPark(s: State, r: nat, x: Execution, doReply: bool, issued: Issued): (t: State)
    requires At(s, r, Running) && s.mutex.Free?
    ensures At(t, r, if React(x, doReply).FanOut? && issued.counter > 0 then Delegating else Finishing)
    ensures t.mutex.Free? && t.cursor == s.cursor && t.counter == s.counter
    ensures match React(x, doReply)
            case Respond(report) => t.log == s.log + [(r, report)] && t.flag == s.flag && t.list == s.list
            case Park => t.log == s.log && t.flag && t.list == s.list + [r]
            case FanOut(_) =>
              && t.flag == s.flag && t.list == s.list
              && t.log == if issued.counter > 0 then s.log else s.log + [(r, Delegated(LastOf(issued)))]
  {
    var s1 := Step(s, Execute(r, x, doReply, issued));
    if React(x, doReply).Park? then Step(s1, Append(r)) else s1
  }

  /** Start, execute, and unless the request waits for delegates, terminate. */
  function Alone(s: State, r: nat, x: Execution, doReply: bool, issued: Issued,
                 executions: nat -> Execution): (t: State)
    requires At(s, r, Admitted) && s.mutex.Free? && s.cursor == 0
    ensures t.mutex.Free? && (At(t, r, Done) || At(t, r, Delegating))
  {
    var s1 := ExecuteAndPark(Step(s, Start(r)), r, x, doReply, issued);
    if s1.phase[r].Delegating? then s1 else Terminate(s1, r, executions)
  }

  function FieldsOf(s: State): Fields { Fields(s.counter, s.flag, s.list, s.log) }

  lemma ExecuteOutcome(s: State, r: nat, x: Execution, doReply: bool, issued: Issued)
    requires At(s, r, Running) && s.mutex.Free?
    ensures var t := ExecuteAndPark(s, r, x, doReply, issued);
            var k := if Parks(x, doReply) || Waits(x, issued) then 0 else 1;
            && (At(t, r, Delegating) <==> Waits(x, issued))
            && s.log <= t.log && |t.log| == |s.log| + k
            && (k == 1 ==> t.log[|s.log|].0 == r && Answers(x, doReply, issued, t.log[|s.log|].1))
            && t.flag == (s.flag || Parks(x, doReply))
            && t.list == if Parks(x, doReply) then s.list + [r] else s.list
  {}

  /** The steps of a request left alone have that outcome. */
  lemma AloneOutcome(s: State, r: nat, x: Execution, doReply: bool, issued: Issued, executions: nat -> Execution)
    requires At(s, r, Admitted) && s.mutex.Free? && s.cursor == 0
    ensures Outcome(FieldsOf(s), r, x, doReply, issued, executions,
                    FieldsOf(Alone(s, r, x, doReply, issued, executions)))
  {
    var s0 := Step(s, Start(r));
    var s1 := ExecuteAndPark(s0, r, x, doReply, issued);
    ExecuteOutcome(s0, r, x, doReply, issued);
    DrainedAnswers(s1.list, executions);
  }

  class ServiceClosure {
    var runningRequestCounter: int
    var waitForExclusiveAccess: bool
    var waitingContextList: seq<nat>
    var log: seq<(nat, Report)>    // responses, in the order in which they are reported

    constructor ()
      ensures Is(INITIAL)
    {
      runningRequestCounter, waitForExclusiveAccess, waitingContextList, log := 0, false, [], [];
    }

    /** The closure holds what state `s` of the machine says. */
    ghost predicate Is(s: State)
      reads this
    {
      && runningRequestCounter == s.counter
      && waitForExclusiveAccess == s.flag
      && waitingContextList == s.list
      && log == s.log
    }

    ghost function View(): Fields
      reads this
    {
      Fields(runningRequestCounter, waitForExclusiveAccess, waitingContextList, log)
    }

    method HaltedForMaintenance() returns (halted: bool)
      ensures halted == waitForExclusiveAccess
    {
      halted := waitForExclusiveAccess;
    }

    method StartRunRequest(ghost s: State, ghost r: nat)
      requires Is(s) && At(s, r, Admitted)
      modifies this
      ensures Is(Step(s, Start(r)))
    {
      runningRequestCounter := runningRequestCounter + 1;
    }

    /** Tells whether this was the last running request. */
    method DoneRunRequest(ghost s: State, ghost r: nat) returns (last: bool)
      requires Is(s) && At(s, r, Finishing)
      modifies this
      ensures Is(Step(s, Decrement(r)))
      ensures last <==> At(Step(s, Decrement(r)), r, SawZero)
    {
      var before := runningRequestCounter;    // allocDecrement yields the value before
      runningRequestCounter := before - 1;
      last := 0 == before - 1;
    }

    method ReportAnswer(r: nat, report: Report)
      modifies this`log
      ensures log == old(log) + [(r, report)]
    {
      log := log + [(r, report)];
    }

    /** Under the mutex: set the flag, then append. */
    method PushWaitingRequest(r: nat)
      modifies this
      ensures waitForExclusiveAccess && waitingContextList == old(waitingContextList) + [r]
      ensures runningRequestCounter == old(runningRequestCounter) && log == old(log)
    {
      waitForExclusiveAccess := true;
      waitingContextList := waitingContextList + [r];
    }

    /** The drain: every parked request is executed and answered once, in the
        order of the list; then the list is empty and the flag clear. */
    method ProcessWaitingRequests(executions: nat -> Execution)
      modifies this
      ensures log == old(log) + Drained(old(waitingContextList), executions, |old(waitingContextList)|)
      ensures old(log) <= log && AnswersAll(log[|old(log)|..], old(waitingContextList), executions)
      ensures waitingContextList == [] && !waitForExclusiveAccess
      ensures runningRequestCounter == old(runningRequestCounter)
    {
      var ci := 0;
      while ci < |waitingContextList|
        invariant 0 <= ci <= |waitingContextList|
        invariant waitingContextList == old(waitingContextList)
        invariant runningRequestCounter == old(runningRequestCounter)
        invariant log == old(log) + Drained(waitingContextList, executions, ci)
      {
        match executions(ci) {
          case Executed(delegateRequests) =>
            if delegateRequests == [] {
              ReportAnswer(waitingContextList[ci], Answer);
            } else {
              ReportAnswer(waitingContextList[ci], Error(500, LogicError));
            }
          case Failed(httpStatus, code) =>
            ReportAnswer(waitingContextList[ci], Error(httpStatus, code));
        }
        DrainedStep(waitingContextList, executions, ci);
        ci := ci + 1;
      }
      DrainedAnswers(waitingContextList, executions);
      waitingContextList := [];
      waitForExclusiveAccess := false;
    }

    /** The end of a request: decrement, test, drain. */
    method SignalTermination(r: nat, executions: nat -> Execution, ghost s: State)
      requires Is(s) && At(s, r, Finishing) && s.mutex.Free? && s.cursor == 0
      modifies this
      ensures Is(Terminate(s, r, executions))
    {
      var last := DoneRunRequest(s, r);
      if last {
        var halted := HaltedForMaintenance();
        if halted {
          ProcessWaitingRequests(executions);
        }
      }
    }

    /** What runRequest does with the outcome of execute; `issued` is what
        issueDelegateRequests leaves behind. */
    method Respond(r: nat, x: Execution, doReply: bool, issued: Issued)
      modifies this
      ensures runningRequestCounter == old(runningRequestCounter)
      ensures match React(x, doReply)
              case Respond(report) =>
                log == old(log) + [(r, report)]
                && waitForExclusiveAccess == old(waitForExclusiveAccess)
                && waitingContextList == old(waitingContextList)
              case Park =>
                log == old(log) && waitForExclusiveAccess && waitingContextList == old(waitingContextList) + [r]
              case FanOut(_) =>
                && waitForExclusiveAccess == old(waitForExclusiveAccess)
                && waitingContextList == old(waitingContextList)
                && log == if issued.counter > 0 then old(log) else old(log) + [(r, Delegated(LastOf(issued)))]
      ensures if Parks(x, doReply) || Waits(x, issued) then log == old(log)
              else
                && |log| == |old(log)| + 1 && old(log) <= log
                && log[|old(log)|].0 == r && Answers(x, doReply, issued, log[|old(log)|].1)
    {
      match x {
        case Executed(delegateRequests) =>
          if delegateRequests == [] {
            ReportAnswer(r, Answer);
          } else if issued.counter <= 0 {
            ReportAnswer(r, Delegated(LastOf(issued)));
          }
        case Failed(httpStatus, code) =>
          if httpStatus == 503 {
            if code == TemporarilyUnavailable {
              ReportAnswer(r, TemporalReject);
            } else if code == NeedExclusiveAccess {
              if !doReply {
                ReportAnswer(r, Error(405, NotAllowed));
              } else {
                PushWaitingRequest(r);
              }
            } else {
              ReportAnswer(r, Error(httpStatus, code));
            }
          } else {
            ReportAnswer(r, Error(httpStatus, code));
          }
      }
    }

    /** runRequest of a request that passed the flag test, whatever execute
        yields: the closure ends where the steps of this request, taken one
        after the other, lead the machine. */
    method RunRequest(r: nat, x: Execution, doReply: bool, executions: nat -> Execution, ghost s: State)
      requires Is(s) && At(s, r, Admitted) && s.mutex.Free? && s.cursor == 0
      modifies this
      ensures Is(Alone(s, r, x, doReply, IssuedBy(x), executions))
      ensures Outcome(old(View()), r, x, doReply, IssuedBy(x), executions, View())
    {
      AloneOutcome(s, r, x, doReply, IssuedBy(x), executions);
      StartRunRequest(s, r);
      var issued := IssuedBy(x);
      Respond(r, x, doReply, issued);
      ghost var s1 := ExecuteAndPark(Step(s, Start(r)), r, x, doReply, issued);
      if !(React(x, doReply).FanOut? && issued.counter > 0) {
        SignalTermination(r, executions, s1);
      }
    }
  }

  /** What issueDelegateRequests leaves behind, if execute asked for delegates. */
  function IssuedBy(x: Execution): Issued {
    match x
    case Executed(ds) => Issue(ToFollowUp, ds)
    case Failed(_, _) => Issued(0, [], [], [])
  }

  /** A whole request keeps the invariants of the machine. */
  lemma AloneKeepsInvariant(s: State, r: nat, x: Execution, doReply: bool, executions: nat -> Execution)
    requires Invariant(s) && At(s, r, Admitted) && s.mutex.Free? && s.cursor == 0
    ensures Invariant(Alone(s, r, x, doReply, IssuedBy(x), executions))
  {
    var s0 := Step(s, Start(r));
    StepInvariant(s, Start(r));
    var issued := IssuedBy(x);
    ExecuteKeepsInvariant(s0, r, x, doReply, issued);
    var s1 := ExecuteAndPark(s0, r, x, doReply, issued);
    if !s1.phase[r].Delegating? { TerminateKeepsInvariant(s1, r, executions); }
  }

  lemma ExecuteKeepsInvariant(s: State, r: nat, x: Execution, doReply: bool, issued: Issued)
    requires Invariant(s) && At(s, r, Running) && s.mutex.Free? && issued == IssuedBy(x)
    ensures Invariant(ExecuteAndPark(s, r, x, doReply, issued))
  {
    var a := Execute(r, x, doReply, issued);
    StepInvariant(s, a);
    if React(x, doReply).Park? { StepInvariant(Step(s, a), Append(r)); }
  }

  lemma TerminateKeepsInvariant(s: State, r: nat, executions: nat -> Execution)
    requires Invariant(s) && At(s, r, Finishing) && s.mutex.Free? && s.cursor == 0
    ensures Invariant(Terminate(s, r, executions))
  {
    var s1 := Step(s, Decrement(r));
    StepInvariant(s, Decrement(r));
    if !s1.phase[r].Done? {
      var s2 := Step(s1, TestHalted(r));
      StepInvariant(s1, TestHalted(r));
      if !s2.phase[r].Done? { DrainKeepsInvariant(s2, r, executions); }
    }
  }

  lemma DrainKeepsInvariant(s: State, r: nat, executions: nat -> Execution)
    requires Invariant(s) && At(s, r, WantsDrain) && s.mutex.Free? && s.cursor == 0
    ensures Invariant(WholeDrain(s, r, executions))
  {
    var s1 := Step(s, Lock(r));
    StepInvariant(s, Lock(r));
    TurnsKeepInvariant(s1, r, executions, |s1.list|);
    var s2 := DrainTurns(s1, r, executions, |s1.list|);
    StepInvariant(s2, Clear(r));
    StepInvariant(Step(s2, Clear(r)), Unlock(r));
  }

  lemma {:induction false} TurnsKeepInvariant(s: State, r: nat, executions: nat -> Execution, n: nat)
    requires Invariant(s) && At(s, r, Drain) && s.cursor == 0 && n <= |s.list|
    ensures Invariant(DrainTurns(s, r, executions, n))
  {
    if n > 0 {
      TurnsKeepInvariant(s, r, executions, n - 1);
      StepInvariant(DrainTurns(s, r, executions, n - 1), DrainOne(r, executions(n - 1)));
    }
  }
}
