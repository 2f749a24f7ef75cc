/** Every request is answered in the end: the steps of RequestMachine run out, and
    they cannot run out before all is done. */
module RequestProgress {
  import opened Delegates
  import opened RequestMachine

  // ------------------------------------------------------------------
  // What is left to do
  // ------------------------------------------------------------------

  function Weight(p: Phase): nat {
    match p
    case Admitted => 9
    case Running => 8
    case Parking => 7
    case Delegating => 6
    case Finishing => 5
    case SawZero => 4
    case WantsDrain => 3
    case Drain => 2
    case Cleared => 1
    case Done => 0
  }

  /** The phases the requests have ahead of them. */
  ghost function Ahead(phase: map<nat, Phase>): set<(nat, nat)> {
    set r, i | r in phase && 0 <= i < Weight(phase[r]) :: (r, i)
  }

  function Unanswered(t: Talk): nat { Size(t.state.waiting) + Size(t.state.pending) }

  /** The nodes of the delegates not answered yet. */
  ghost function Open(exchange: map<nat, Talk>): set<(nat, nat)> {
    set r, i | r in exchange && 0 <= i < Unanswered(exchange[r]) :: (r, i)
  }

  /** Less is left in `t` than in `s`: phases first, then parked requests, then delegates. */
  ghost predicate Less(t: State, s: State) {
    || Ahead(t.phase) < Ahead(s.phase)
    || (t.phase == s.phase && |t.list| - t.cursor < |s.list| - s.cursor)
    || (t.phase == s.phase && t.list == s.list && t.cursor == s.cursor && Open(t.exchange) < Open(s.exchange))
  }

  lemma {:induction false} MoveAhead(phase: map<nat, Phase>, r: nat, p: Phase)
    requires r in phase && Weight(p) < Weight(phase[r])
    ensures Ahead(phase[r := p]) < Ahead(phase)
  {
    var before, after := Ahead(phase), Ahead(phase[r := p]);
    assert (r, Weight(p)) in before && (r, Weight(p)) !in after;
    forall x | x in after ensures x in before {}
  }

  lemma {:induction false} TalkLess(exchange: map<nat, Talk>, r: nat, t: Talk)
    requires r in exchange && Unanswered(t) < Unanswered(exchange[r])
    ensures Open(exchange[r := t]) < Open(exchange)
  {
    var before, after := Open(exchange), Open(exchange[r := t]);
    assert (r, Unanswered(t)) in before && (r, Unanswered(t)) !in after;
    forall x | x in after ensures x in before {}
  }

  // ------------------------------------------------------------------
  // Every step leaves less
  // ------------------------------------------------------------------

  lemma {:induction false} ClosedAnswerLess(s: Issued, k: nat, st: Status, t: Issued)
    requires k < |s.waiting| && s.counter <= 0 && t == PutAnswer(ToFollowUp, s, k, st)
    ensures Size(t.waiting) + Size(t.pending) < Size(s.waiting) + Size(s.pending)
  {
    var rest := s.waiting[..k] + s.waiting[k + 1..];
    WaitingSplit(s.waiting, k);
    NodesCount(s.waiting);
    NodesCount(rest);
  }

  lemma {:induction false} OpenAnswerLess(init: seq<Delegate>, s: Issued, k: nat, st: Status, t: Issued)
    requires Sound(init, s) && k < |s.waiting| && s.counter > 0
    requires t == PutAnswer(ToFollowUp, s, k, st) && t.counter > 0
    ensures Size(t.waiting) + Size(t.pending) < Size(s.waiting) + Size(s.pending)
  {
    AnswerIsSound(init, s, k, st);
    AnswerIsPut(s, k, st);
    OpenCount(init, s);
    OpenCount(init, t);
  }

  lemma {:induction false} TalkGoesOn(s: State, r: nat, t: Talk)
    requires r in s.exchange && r in s.phase && s.phase[r].Delegating? && t.state.counter > 0
    requires Unanswered(t) < Unanswered(s.exchange[r])
    ensures Less(Exchanged(s, r, t.init, t.state), s)
  {
    TalkLess(s.exchange, r, t);
    assert s.phase[r := Delegating] == s.phase;
  }

  lemma {:induction false} TalkEnds(s: State, r: nat, t: Talk)
    requires r in s.phase && s.phase[r].Delegating? && t.state.counter <= 0
    ensures Less(Exchanged(s, r, t.init, t.state), s)
  {
    MoveAhead(s.phase, r, Finishing);
  }

  /** An answer leaves fewer nodes unanswered, unless it closes the exchange. */
  lemma {:induction false} FewerUnanswered(t: Talk, k: nat, st: Status, issued: Issued)
    requires Sound(t.init, t.state) && k < |t.state.waiting| && issued == PutAnswer(ToFollowUp, t.state, k, st)
    ensures t.state.counter <= 0 || issued.counter > 0 ==> Unanswered(Talk(t.init, issued)) < Unanswered(t)
  {
    if t.state.counter <= 0 {
      ClosedAnswerLess(t.state, k, st, issued);
    } else if issued.counter > 0 {
      OpenAnswerLess(t.init, t.state, k, st, issued);
    }
  }

  lemma {:induction false} AnswerLess(s: State, a: Label, t: Talk)
    requires a.AnswerDelegate? && Allowed(s, a) && Exchanging(s) && t == Talk(s.exchange[a.r].init, a.issued)
    requires s.exchange[a.r].state.counter <= 0 || a.issued.counter > 0 ==> Unanswered(t) < Unanswered(s.exchange[a.r])
    ensures Less(Step(s, a), s)
  {
    if s.exchange[a.r].state.counter <= 0 {
      TalkLess(s.exchange, a.r, t);
    } else if a.issued.counter > 0 {
      TalkGoesOn(s, a.r, t);
    } else {
      TalkEnds(s, a.r, t);
    }
  }

  lemma {:induction false} ExecuteLess(s: State, r: nat, x: Execution, doReply: bool, issued: Issued)
    requires Allowed(s, Execute(r, x, doReply, issued))
    ensures Less(Step(s, Execute(r, x, doReply, issued)), s)
  {
    MoveAhead(s.phase, r, Finishing);
    MoveAhead(s.phase, r, Parking);
    MoveAhead(s.phase, r, Delegating);
  }

  /** Whatever is done next, apart from taking in a new request, leaves less to do:
      there is no endless run without new requests. */
  lemma {:induction false} StepLess(s: State, a: Label)
    requires Enabled(s, a) && Invariant(s) && !a.TestFlag?
    ensures Less(Step(s, a), s)
  {
    match a
    case TurnAway(r, _, _) => MoveAhead(s.phase, r, Done);
    case Start(r) => MoveAhead(s.phase, r, Running);
    case Execute(r, x, doReply, issued) => ExecuteLess(s, r, x, doReply, issued);
    case Append(r) => MoveAhead(s.phase, r, Finishing);
    case AnswerDelegate(r, k, st, issued) =>
      FewerUnanswered(s.exchange[r], k, st, issued);
      AnswerLess(s, a, Talk(s.exchange[r].init, issued));
    case Decrement(r) => MoveAhead(s.phase, r, if s.counter - 1 == 0 then SawZero else Done);
    case TestHalted(r) => MoveAhead(s.phase, r, if s.flag then WantsDrain else Done);
    case Lock(r) => MoveAhead(s.phase, r, Drain);
    case DrainOne(_, _) =>
    case Clear(r) => MoveAhead(s.phase, r, Cleared);
    case Unlock(r) => MoveAhead(s.phase, r, Done);
    case Throw(r) => MoveAhead(s.phase, r, Done);
  }

  // ------------------------------------------------------------------
  // The end
  // ------------------------------------------------------------------

  ghost predicate AllDone(s: State) { forall r :: r in s.phase ==> s.phase[r].Done? }

  predicate NothingNew(labels: seq<Label>) {
    forall i :: 0 <= i < |labels| ==> !labels[i].Throw? && !labels[i].TestFlag?
  }

  lemma {:induction false} NextStep(s: State) returns (a: Label)
    requires Invariant(s) && !AllDone(s)
    ensures Enabled(s, a) && !a.Throw? && !a.TestFlag? && Invariant(Step(s, a))
    ensures Lower(Step(s, a), s)
  {
    var r :| r in s.phase && !s.phase[r].Done?;
    a := SomebodyCanGoOn(s, r, Executed([]), true);
    StepInvariant(s, a);
    StepLess(s, a);
    LessIsLower(Step(s, a), s);
  }

  /** The same as a measure Dafny knows to be well-founded. */
  ghost predicate Lower(t: State, s: State) {
    || Ahead(t.phase) < Ahead(s.phase)
    || (Ahead(t.phase) == Ahead(s.phase) && 0 <= |t.list| - t.cursor < |s.list| - s.cursor)
    || (Ahead(t.phase) == Ahead(s.phase) && |t.list| - t.cursor == |s.list| - s.cursor
        && Open(t.exchange) < Open(s.exchange))
  }

  lemma {:induction false} LessIsLower(t: State, s: State)
    requires Less(t, s) && t.cursor <= |t.list|
    ensures Lower(t, s)
  {}

  /** From every state of the invariant the requests taken in can be brought to their end. */
  lemma {:induction false} CanFinish(s: State) returns (more: seq<Label>)
    requires Invariant(s)
    ensures NothingNew(more) && AllDone(Run(s, more))
    decreases Ahead(s.phase), |s.list| - s.cursor, Open(s.exchange)
  {
    if AllDone(s) {
      more := [];
    } else {
      var a := NextStep(s);
      var rest := CanFinish(Step(s, a));
      more := [a] + rest;
      RunFirst(s, a, rest);
      NothingNewFirst(a, rest);
    }
  }

  lemma {:induction false} NothingNewFirst(a: Label, rest: seq<Label>)
    requires NothingNew(rest) && !a.Throw? && !a.TestFlag?
    ensures NothingNew([a] + rest)
  {}

  lemma {:induction false} RunFirst(s: State, a: Label, rest: seq<Label>)
    requires Enabled(s, a)
    ensures Run(s, [a] + rest) == Run(Step(s, a), rest)
  {
    var all := [a] + rest;
    if rest == [] {
      assert all == [a] && [a][..0] == [];
      assert Run(s, []) == s;
    } else {
      var init := rest[..|rest| - 1];
      RunFirst(s, a, init);
      assert all[..|all| - 1] == [a] + init && all[|all| - 1] == rest[|rest| - 1];
    }
  }

  /** Every exception-free run can be completed, and however it is completed every
      request that ever came in has exactly one response, and nobody is parked. */
  lemma {:induction false} EverybodyIsAnswered(labels: seq<Label>) returns (more: seq<Label>)
    requires ExceptionFree(labels)
    ensures NothingNew(more) && AllDone(Run(INITIAL, labels + more))
    ensures var s := Run(INITIAL, labels + more);
            && s.counter == 0 && s.list == [] && !s.flag
            && forall r: nat :: Count(s.log, r) == if r in s.phase then 1 else 0
  {
    RunInvariant(labels);
    more := CanFinish(Run(INITIAL, labels));
    RunAppend(INITIAL, labels, more);
    forall i | 0 <= i < |labels + more| ensures !(labels + more)[i].Throw? {}
    QuietMeansAnswered(labels + more);
  }
}
