/** What the responses of requests report, on what execute yielded
    (src/applicationImpl.cpp, src/serviceClosure.cpp). */
module RequestResponses {
  import opened Delegates
  import opened RequestMachine

  // ------------------------------------------------------------------
  // Where a response comes from
  // ------------------------------------------------------------------

  /** The drain turns to the parked request `r`, and executing it yields `x`. */
  predicate Drains(s: State, a: Label, r: nat, x: Execution) {
    a.DrainOne? && s.cursor < |s.list| && s.list[s.cursor] == r && a.x == x
  }

  predicate DrainsDelegates(s: State, a: Label, r: nat) {
    a.DrainOne? && s.cursor < |s.list| && s.list[s.cursor] == r && a.x.Executed? && a.x.delegates != []
  }

  predicate Executes(a: Label, r: nat, x: Execution) {
    a.Execute? && a.r == r && a.x == x
  }

  /** Execute asked for delegates and all was over when they were issued. */
  predicate EndsAtOnce(a: Label, r: nat) {
    a.Execute? && a.r == r && a.x.Executed? && a.x.delegates != [] && a.issued.counter <= 0
  }

  /** The answer of a delegate ended an exchange that was open. */
  predicate EndsLater(s: State, a: Label, r: nat) {
    a.AnswerDelegate? && a.r == r && r in s.exchange && s.exchange[r].state.counter > 0 && a.issued.counter <= 0
  }

  /** A final answer comes from an execution that succeeded and asked for no delegates. */
  predicate AnswerCause(s: State, a: Label, r: nat) {
    Executes(a, r, Executed([])) || Drains(s, a, r, Executed([]))
  }

  /** A temporal reject comes from the flag, or from the request context itself. */
  predicate RejectCause(s: State, a: Label, r: nat) {
    || (a.TestFlag? && a.r == r && s.flag)
    || Executes(a, r, Failed(503, TemporarilyUnavailable))
  }

  /** An error comes from before the execution, from the execution with its own status
      and code, from HEAD where exclusive access is needed, from delegates asked for in a
      drain, or from an exception. */
  predicate ErrorCause(s: State, a: Label, r: nat, status: int, code: Code) {
    || (a.TurnAway? && a.r == r && a.httpStatus == status && a.code == code)
    || (Executes(a, r, Failed(status, code))
        && (status == 503 ==> code !in {TemporarilyUnavailable, NeedExclusiveAccess}))
    || (Executes(a, r, Failed(503, NeedExclusiveAccess)) && !a.doReply && status == 405 && code == NotAllowed)
    || Drains(s, a, r, Failed(status, code))
    || (DrainsDelegates(s, a, r) && status == 500 && code == LogicError)
    || (a.Throw? && a.r == r && status == 500 && code == OtherError(-1))
  }

  predicate DelegatedCause(s: State, a: Label, r: nat, last: Event) {
    && (EndsAtOnce(a, r) || EndsLater(s, a, r))
    && a.issued.trace != [] && a.issued.trace[|a.issued.trace| - 1] == last
  }

  predicate Cause(s: State, a: Label, r: nat, report: Report) {
    match report
    case Answer => AnswerCause(s, a, r)
    case TemporalReject => RejectCause(s, a, r)
    case Error(status, code) => ErrorCause(s, a, r, status, code)
    case Delegated(last) => DelegatedCause(s, a, r, last)
  }

  // ------------------------------------------------------------------
  // One step
  // ------------------------------------------------------------------

  lemma AddedOne(log: seq<(nat, Report)>, x: (nat, Report), y: (nat, Report))
    ensures log + [x] == log + [y] <==> x == y
    ensures log + [x] != log
  {
    assert (log + [x])[|log|] == x && (log + [y])[|log|] == y;
  }

  lemma ExecuteReports(s: State, a: Label, r: nat, report: Report)
    requires a.Execute? && Enabled(s, a)
    requires React(a.x, a.doReply).FanOut? ==> a.issued.counter > 0 || a.issued.trace != []
    ensures Step(s, a).log == s.log + [(r, report)] <==> Cause(s, a, r, report)
  {
    var t := Step(s, a);
    if t.log != s.log {
      var x := t.log[|s.log|];
      assert t.log == s.log + [x];
      AddedOne(s.log, x, (r, report));
    }
  }

  lemma AnswerReports(s: State, a: Label, r: nat, report: Report)
    requires a.AnswerDelegate? && Enabled(s, a)
    requires s.exchange[a.r].state.counter > 0 && a.issued.counter <= 0 ==> a.issued.trace != []
    ensures Step(s, a).log == s.log + [(r, report)] <==> Cause(s, a, r, report)
  {
    var t := Step(s, a);
    if t.log != s.log {
      var x := t.log[|s.log|];
      assert t.log == s.log + [x];
      AddedOne(s.log, x, (r, report));
    }
  }

  lemma OtherReports(s: State, a: Label, r: nat, report: Report)
    requires !Talks(a) && Enabled(s, a)
    ensures Step(s, a).log == s.log + [(r, report)] <==> Cause(s, a, r, report)
  {
    var t := Step(s, a);
    if t.log != s.log {
      var x := t.log[|s.log|];
      assert t.log == s.log + [x];
      AddedOne(s.log, x, (r, report));
    }
  }

  lemma ClosedHasTrace(init: seq<Delegate>, e: Issued)
    requires Sound(init, e) && e.counter <= 0
    ensures e.trace != []
  {}

  /** A step adds the entry `(r, report)` to the log if and only if it is a cause of it. */
  lemma ReportExactly(s: State, a: Label, r: nat, report: Report)
    requires Enabled(s, a) && ExchangesSound(s)
    ensures Step(s, a).log == s.log + [(r, report)] <==> Cause(s, a, r, report)
  {
    FaithfulIsSound(s, a);
    if a.Execute? {
      if React(a.x, a.doReply).FanOut? && a.issued.counter <= 0 { ClosedHasTrace(a.x.delegates, a.issued); }
      ExecuteReports(s, a, r, report);
    } else if a.AnswerDelegate? {
      if a.issued.counter <= 0 { ClosedHasTrace(s.exchange[a.r].init, a.issued); }
      AnswerReports(s, a, r, report);
    } else {
      OtherReports(s, a, r, report);
    }
  }

  /** A step adds one entry at most. */
  lemma OneReport(s: State, a: Label)
    requires Enabled(s, a)
    ensures Step(s, a).log == s.log || (|Step(s, a).log| == |s.log| + 1 && Step(s, a).log[..|s.log|] == s.log)
  {}

  /** A request is parked if and only if exclusive access is needed and it is not HEAD. */
  lemma ParksExactly(s: State, a: Label)
    requires Enabled(s, a) && Exchanging(s)
    ensures At(Step(s, a), a.r, Parking) <==> Executes(a, a.r, Failed(503, NeedExclusiveAccess)) && a.doReply
  {}

  // ------------------------------------------------------------------
  // Runs
  // ------------------------------------------------------------------

  /** Step `n` of the run is taken and adds entry `i` of its log. */
  ghost predicate AddedBy(labels: seq<Label>, n: nat, i: nat) {
    && n < |labels| && i < |Run(INITIAL, labels).log|
    && var s := Run(INITIAL, labels[..n]);
       Enabled(s, labels[n]) && |s.log| == i
       && Step(s, labels[n]).log == s.log + [Run(INITIAL, labels).log[i]]
  }

  lemma Entry(log: seq<(nat, Report)>, log': seq<(nat, Report)>, i: nat)
    requires log' == log || (|log'| == |log| + 1 && log'[..|log|] == log)
    requires i < |log'|
    ensures if i < |log| then log[i] == log'[i] else i == |log| && log' == log + [log'[i]]
  {
    if i < |log| && log' != log { assert log'[..|log|][i] == log'[i]; }
  }

  lemma NextState(labels: seq<Label>, s: State, a: Label) returns (t: State)
    requires labels != [] && s == Run(INITIAL, labels[..|labels| - 1]) && a == labels[|labels| - 1]
    ensures t == Run(INITIAL, labels) && if Enabled(s, a) then t == Step(s, a) else t == s
  {
    t := Run(INITIAL, labels);
  }

  /** The last step of a run: it adds an entry of the log, or the entry was there before. */
  lemma LastAdds(labels: seq<Label>, s: State, a: Label, i: nat)
    requires labels != [] && s == Run(INITIAL, labels[..|labels| - 1]) && a == labels[|labels| - 1]
    requires i < |Run(INITIAL, labels).log|
    ensures var log := Run(INITIAL, labels).log;
            if i < |s.log| then s.log[i] == log[i]
            else Enabled(s, a) && |s.log| == i && Step(s, a).log == log == s.log + [log[i]]
  {
    var t := NextState(labels, s, a);
    if Enabled(s, a) {
      OneReport(s, a);
      Entry(s.log, t.log, i);
    }
  }

  lemma LastHasCause(labels: seq<Label>, s: State, a: Label, entry: (nat, Report))
    requires labels != [] && s == Run(INITIAL, labels[..|labels| - 1]) && Enabled(s, a)
    requires Step(s, a).log == s.log + [entry]
    ensures Cause(s, a, entry.0, entry.1)
  {
    RunInvariant(labels[..|labels| - 1]);
    ReportExactly(s, a, entry.0, entry.1);
  }

  /** Over every run, every response has its cause: a step that was taken, that added
      this response, and that reports it for the reason given. */
  lemma {:induction false} ResponseHasCause(labels: seq<Label>, i: nat) returns (n: nat)
    requires i < |Run(INITIAL, labels).log|
    ensures AddedBy(labels, n, i)
    ensures var (r, report) := Run(INITIAL, labels).log[i]; Cause(Run(INITIAL, labels[..n]), labels[n], r, report)
  {
    n := |labels| - 1;
    var before := labels[..n];
    var s, a := Run(INITIAL, before), labels[n];
    LastAdds(labels, s, a, i);
    if i < |s.log| {
      n := ResponseHasCause(before, i);
      assert before[..n] == labels[..n] && before[n] == labels[n];
    } else {
      LastHasCause(labels, s, a, Run(INITIAL, labels).log[i]);
    }
  }

  /** In particular: a final answer is reported only for an execution that succeeded. */
  lemma AnswerMeansExecuted(labels: seq<Label>, i: nat) returns (n: nat)
    requires i < |Run(INITIAL, labels).log| && Run(INITIAL, labels).log[i].1 == Answer
    ensures AddedBy(labels, n, i)
    ensures (labels[n].Execute? || labels[n].DrainOne?) && labels[n].x == Executed([])
  {
    n := ResponseHasCause(labels, i);
  }
}
