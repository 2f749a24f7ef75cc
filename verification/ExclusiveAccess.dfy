/** The same requests at a coarser grain: admitting a request (test and
    increment) is one step, and so is finishing one (decrement and test). */
module ExclusiveAccess {
  import opened Delegates
  import opened RequestMachine

  datatype CoarseLabel =
    | Admit(r: nat)
    | Refuse(r: nat, httpStatus: int, code: Code)   // exec_request reports an error before runRequest
    | Finish(r: nat)
    | Fine(a: Label)

  /** The steps that are coarse already. */
  predicate Coarse(a: Label) {
    Talks(a) || Locks(a) || a.Throw?
  }

  /** The fine steps a coarse step consists of. */
  function Expand(s: State, c: CoarseLabel): seq<Label> {
    match c
    case Admit(r) => if s.flag then [TestFlag(r)] else [TestFlag(r), Start(r)]
    case Refuse(r, status, code) =>
      if s.flag then [TestFlag(r)] else [TestFlag(r), TurnAway(r, status, code)]
    case Finish(r) => if s.counter == 1 then [Decrement(r), TestHalted(r)] else [Decrement(r)]
    case Fine(a) => [a]
  }

  predicate Can(s: State, c: CoarseLabel) {
    match c
    case Admit(r) => r !in s.phase
    case Refuse(r, _, _) => r !in s.phase
    case Finish(r) => At(s, r, Finishing)
    case Fine(a) => Coarse(a) && Enabled(s, a)
  }

  function CoarseStep(s: State, c: CoarseLabel): State
    requires Can(s, c)
  {
    Run(s, Expand(s, c))
  }

  /** The fine run a coarse run consists of; labels that are not enabled are skipped. */
  function Flatten(cs: seq<CoarseLabel>): seq<Label> {
    if cs == [] then []
    else
      var before := Flatten(cs[..|cs| - 1]);
      var s, c := Run(INITIAL, before), cs[|cs| - 1];
      if Can(s, c) then before + Expand(s, c) else before
  }

  function CoarseRun(cs: seq<CoarseLabel>): State {
    if cs == [] then INITIAL
    else
      var s, c := CoarseRun(cs[..|cs| - 1]), cs[|cs| - 1];
      if Can(s, c) then CoarseStep(s, c) else s
  }

  predicate Throws(c: CoarseLabel) { c.Fine? && c.a.Throw? }

  lemma ExpandExceptionFree(s: State, c: CoarseLabel)
    requires Can(s, c) && !Throws(c)
    ensures ExceptionFree(Expand(s, c))
  {
  }

  lemma ExceptionFreeAppend(a: seq<Label>, b: seq<Label>)
    requires ExceptionFree(a) && ExceptionFree(b)
    ensures ExceptionFree(a + b)
  {
  }

  /** Every coarse run is a fine run, without exceptions if it has none. */
  lemma {:induction false} CoarseIsFine(cs: seq<CoarseLabel>)
    ensures CoarseRun(cs) == Run(INITIAL, Flatten(cs))
    ensures (forall i :: 0 <= i < |cs| ==> !Throws(cs[i])) ==> ExceptionFree(Flatten(cs))
  {
    if cs != [] {
      var init, c := cs[..|cs| - 1], cs[|cs| - 1];
      CoarseIsFine(init);
      assert forall i :: 0 <= i < |init| ==> init[i] == cs[i];
      var before := Flatten(init);
      var s := Run(INITIAL, before);
      if Can(s, c) {
        RunAppend(INITIAL, before, Expand(s, c));
        if forall i :: 0 <= i < |cs| ==> !Throws(cs[i]) {
          ExpandExceptionFree(s, c);
          ExceptionFreeAppend(before, Expand(s, c));
        }
      }
    }
  }

  lemma TwoSteps(s: State, a: Label, b: Label)
    ensures Enabled(s, a) ==> Run(s, [a]) == Step(s, a)
    ensures Enabled(s, a) && Enabled(Step(s, a), b) ==> Run(s, [a, b]) == Step(Step(s, a), b)
  {
    assert [a][..0] == [];
    assert [a, b][..1] == [a];
  }

  predicate Drains(p: Phase) {
    p.WantsDrain? || p.Drain? || p.Cleared?
  }

  /** At most one drain, and nothing else, while the flag keeps others out. */
  ghost predicate Exclusive(s: State) {
    && (forall r :: r in s.phase ==> !s.phase[r].Admitted? && !s.phase[r].SawZero?)
    && (forall r :: r in s.phase && Drains(s.phase[r]) ==> s.flag && s.counter == 0)
    && (forall q, r :: q in s.phase && r in s.phase && Drains(s.phase[q]) && Drains(s.phase[r]) ==> q == r)
  }

  lemma AdmitExclusive(s: State, c: CoarseLabel)
    requires Can(s, c) && (c.Admit? || c.Refuse?) && Exclusive(s)
    ensures Exclusive(CoarseStep(s, c))
    ensures s.flag ==> CoarseStep(s, c) == Move(Logged(s, c.r, TemporalReject), c.r, Done)
  {
    var r := c.r;
    TwoSteps(s, TestFlag(r), if c.Admit? then Start(r) else TurnAway(r, c.httpStatus, c.code));
  }

  lemma FinishExclusive(s: State, r: nat)
    requires At(s, r, Finishing) && Exclusive(s) && Conserved(s)
    ensures Exclusive(CoarseStep(s, Finish(r)))
  {
    InFlightPositive(s, r);
    TwoSteps(s, Decrement(r), TestHalted(r));
  }

  /** While somebody is counted nobody drains, and a counted request moves on to a
      phase in which it is neither admitted, nor has seen zero, nor drains. */
  lemma CountedExclusive(s: State, s': State, r: nat)
    requires Exclusive(s) && s.counter > 0 && r in s'.phase && s'.phase == s.phase[r := s'.phase[r]]
    requires Counted(s'.phase[r]) || s'.phase[r].Done?
    ensures Exclusive(s')
  {
    assert forall q :: q in s'.phase ==> q == r || s'.phase[q] == s.phase[q];
  }

  lemma ThrowExclusive(s: State, r: nat)
    requires At(s, r, Running) && Exclusive(s) && Conserved(s)
    ensures Exclusive(Step(s, Throw(r)))
  {
    InFlightPositive(s, r);
    CountedExclusive(s, Step(s, Throw(r)), r);
  }

  lemma TalkExclusive(s: State, a: Label)
    requires Talks(a) && Enabled(s, a) && Exclusive(s) && Conserved(s) && Exchanging(s)
    ensures Exclusive(Step(s, a))
  {
    TalkMoves(s, a);
    if Counted(s.phase[a.r]) {
      InFlightPositive(s, a.r);
      assert s.phase[a.r := s.phase[a.r]] == s.phase;
      CountedExclusive(s, Step(s, a), a.r);
    } else {
      TalkStillCounted(s, a);
    }
  }

  lemma TalkStillCounted(s: State, a: Label)
    requires Talks(a) && Allowed(s, a) && Exchanging(s)
    ensures var s' := Step(s, a);
            Counted(s.phase[a.r]) || (s'.phase == s.phase && s'.flag == s.flag && s'.counter == s.counter)
  {
  }

  lemma LockExclusive(s: State, a: Label)
    requires Locks(a) && Enabled(s, a) && Exclusive(s) && Conserved(s)
    ensures Exclusive(Step(s, a))
  {
    if a.Append? { InFlightPositive(s, a.r); }
  }

  lemma {:induction false} RunExclusive(cs: seq<CoarseLabel>)
    ensures Exclusive(CoarseRun(cs))
  {
    if cs != [] {
      var before := cs[..|cs| - 1];
      RunExclusive(before);
      CoarseIsFine(before);
      RunInvariant(Flatten(before));
      var s, c := CoarseRun(before), cs[|cs| - 1];
      if Can(s, c) {
        match c
        case Admit(r) => AdmitExclusive(s, c);
        case Refuse(r, _, _) => AdmitExclusive(s, c);
        case Finish(r) => FinishExclusive(s, r);
        case Fine(a) =>
          TwoSteps(s, a, a);
          if Talks(a) {
            TalkExclusive(s, a);
          } else if a.Throw? {
            ThrowExclusive(s, a.r);
          } else {
            LockExclusive(s, a);
          }
      }
    }
  }

  /** Exclusive maintenance: while a drain is in progress nobody is counted, the
      counter is zero, every request that comes in is turned away with a
      temporal reject, and there is no second drain. */
  lemma DrainIsExclusive(cs: seq<CoarseLabel>, r: nat)
    requires var s := CoarseRun(cs); r in s.phase && Drains(s.phase[r])
    ensures var s := CoarseRun(cs);
            && s.counter == 0
            && (forall q :: q in s.phase ==> !Counted(s.phase[q]))
            && (forall q :: q in s.phase && Drains(s.phase[q]) ==> q == r)
            && (forall q :: q !in s.phase ==> CoarseStep(s, Admit(q)) == Move(Logged(s, q, TemporalReject), q, Done))
  {
    var s := CoarseRun(cs);
    RunExclusive(cs);
    CoarseIsFine(cs);
    RunInvariant(Flatten(cs));
    forall q | q in s.phase ensures !Counted(s.phase[q]) {
      if Counted(s.phase[q]) { InFlightPositive(s, q); }
    }
    forall q | q !in s.phase ensures CoarseStep(s, Admit(q)) == Move(Logged(s, q, TemporalReject), q, Done) {
      AdmitExclusive(s, Admit(q));
    }
  }

  // ------------------------------------------------------------------
  // Every access a step of its own
  // ------------------------------------------------------------------

  /** At most one thread drains, and nobody is counted meanwhile. */
  ghost predicate Solo(s: State) {
    && (forall r :: r in s.phase && Drains(s.phase[r]) ==> s.counter == 0)
    && (forall q, r :: q in s.phase && r in s.phase && Drains(s.phase[q]) && Drains(s.phase[r]) ==> q == r)
  }

  ghost predicate SomebodyDrains(s: State) { exists q :: q in s.phase && Drains(s.phase[q]) }

  /** A request that passed the flag test before is counted only now, during a drain;
      or a thread that saw zero finds the flag set, but by now somebody else is
      counted or drains. */
  ghost predicate Intrudes(s: State, a: Label) {
    || (a.Start? && SomebodyDrains(s))
    || (a.TestHalted? && s.flag && (s.counter > 0 || SomebodyDrains(s)))
  }

  /** A request that does not drain moves to a phase in which it does not drain. */
  lemma SoloMove(s: State, s': State, r: nat)
    requires Solo(s) && r in s'.phase && s'.phase == s.phase[r := s'.phase[r]] && !Drains(s'.phase[r])
    requires s'.counter == s.counter || !SomebodyDrains(s)
    ensures Solo(s')
  {
    assert forall q :: q in s'.phase ==> q == r || s'.phase[q] == s.phase[q];
  }

  lemma CountedSolo(s: State, a: Label)
    requires Enabled(s, a) && Invariant(s) && Solo(s) && !a.TestFlag?
    requires a.r in s.phase && Counted(s.phase[a.r])
    ensures Solo(Step(s, a)) && !Intrudes(s, a)
  {
    InFlightPositive(s, a.r);
    StepMoves(s, a);
    assert s.phase[a.r := s.phase[a.r]] == s.phase;
    CountedMove(s, a);
    SoloMove(s, Step(s, a), a.r);
  }

  lemma CountedMove(s: State, a: Label)
    requires Allowed(s, a) && Exchanging(s) && a.r in s.phase && Counted(s.phase[a.r])
    ensures var s' := Step(s, a); a.r in s'.phase && !Drains(s'.phase[a.r])
    ensures !a.Start? && !a.TestHalted?
  {
    if Talks(a) { TalkMoves(s, a); }
  }

  lemma TalkSolo(s: State, a: Label)
    requires Talks(a) && Enabled(s, a) && Invariant(s) && Solo(s)
    ensures Solo(Step(s, a))
  {
    if Counted(s.phase[a.r]) { CountedSolo(s, a); } else { TalkStillCounted(s, a); }
  }

  /** The drain itself, and the end of a request that parks. */
  lemma LockSolo(s: State, a: Label)
    requires Locks(a) && Enabled(s, a) && Invariant(s) && Solo(s)
    ensures Solo(Step(s, a))
  {
    if a.Append? { CountedSolo(s, a); }
  }

  lemma StartSolo(s: State, r: nat)
    requires At(s, r, Admitted) && Conserved(s) && Solo(s)
    ensures Solo(Step(s, Start(r))) <==> !SomebodyDrains(s)
  {
    var s' := Step(s, Start(r));
    assert s'.counter > 0;
    if SomebodyDrains(s) {
      var q :| q in s.phase && Drains(s.phase[q]);
      assert q in s'.phase && Drains(s'.phase[q]);
    } else {
      SoloMove(s, s', r);
    }
  }

  lemma TestSolo(s: State, r: nat)
    requires At(s, r, SawZero) && Conserved(s) && Solo(s)
    ensures Solo(Step(s, TestHalted(r))) <==> !(s.flag && (s.counter > 0 || SomebodyDrains(s)))
  {
    var s' := Step(s, TestHalted(r));
    if !s.flag {
      SoloMove(s, s', r);
    } else {
      assert r in s'.phase && Drains(s'.phase[r]);
      if q :| q in s.phase && Drains(s.phase[q]) {
        assert q != r && q in s'.phase && Drains(s'.phase[q]);
      }
    }
  }

  /** Exclusion at the fine grain, step by step: it is kept by every step but the two
      that intrude, and broken by those. */
  lemma SoloStepExactly(s: State, a: Label)
    requires Enabled(s, a) && Invariant(s) && Solo(s)
    ensures Solo(Step(s, a)) <==> !Intrudes(s, a)
  {
    if Talks(a) {
      TalkSolo(s, a);
    } else if Locks(a) {
      LockSolo(s, a);
    } else if a.Start? {
      StartSolo(s, a.r);
    } else if a.TestHalted? {
      TestSolo(s, a.r);
    } else if a.Decrement? || a.Throw? {
      CountedSolo(s, a);
    } else {
      SoloMove(s, Step(s, a), a.r);
    }
  }

  /** Exclusive in every state of the run. */
  ghost predicate SoloThroughout(labels: seq<Label>) {
    Solo(Run(INITIAL, labels)) && (labels == [] || SoloThroughout(labels[..|labels| - 1]))
  }

  /** No step of the run intrudes. */
  ghost predicate NobodyIntrudes(labels: seq<Label>) {
    labels == [] ||
    (var before, a := labels[..|labels| - 1], labels[|labels| - 1];
     var s := Run(INITIAL, before);
     NobodyIntrudes(before) && (Enabled(s, a) ==> !Intrudes(s, a)))
  }

  /** Over every fine run, exceptions included: a drain is exclusive throughout if and
      only if no request is counted during a drain after it passed the flag test, and
      no thread that saw zero finds the flag set while another is counted or drains. */
  lemma {:induction false} SoloExactly(labels: seq<Label>)
    ensures SoloThroughout(labels) <==> NobodyIntrudes(labels)
  {
    if labels != [] {
      var before, a := labels[..|labels| - 1], labels[|labels| - 1];
      var s := Run(INITIAL, before);
      SoloExactly(before);
      RunInvariant(before);
      if SoloThroughout(before) && Enabled(s, a) { SoloStepExactly(s, a); }
    }
  }

  /** Such a run exists: request 1 passes the test, request 0 parks and starts to
      drain, request 1 runs. */
  const OVERLAP: seq<Label> :=
    [TestFlag(0), TestFlag(1), Start(0), PARK, Append(0), Decrement(0), TestHalted(0), Lock(0), Start(1)]

  lemma FineGrainOverlaps()
    ensures var s := Run(INITIAL, OVERLAP); At(s, 0, Drain) && At(s, 1, Running) && s.counter == 1
    ensures !SoloThroughout(OVERLAP) && !NobodyIntrudes(OVERLAP)
  {
    SoloExactly(OVERLAP);
    var s0 := State(1, false, [], 0, Free, map[0 := Running, 1 := Admitted], map[], [], [], [], [0], []);
    var s1 := s0.(counter := 0, flag := true, list := [0],
                     phase := map[0 := SawZero, 1 := Admitted], arrived := [0], finished := [0]);
    assert Run(INITIAL, [TestFlag(0), TestFlag(1), Start(0)]) == s0 by { UpToStart(s0); }
    var front := [TestFlag(0), TestFlag(1), Start(0)];
    RunAppend(INITIAL, front, [PARK, Append(0), Decrement(0)]);
    UpToZero(s0, s1);
    RunAppend(INITIAL, front + [PARK, Append(0), Decrement(0)], [TestHalted(0), Lock(0), Start(1)]);
    UpToOverlap(s1);
    assert OVERLAP == front + [PARK, Append(0), Decrement(0)] + [TestHalted(0), Lock(0), Start(1)];
  }

  lemma ThreeSteps(s: State, a: Label, b: Label, c: Label)
    requires Enabled(s, a) && Enabled(Step(s, a), b) && Enabled(Step(Step(s, a), b), c)
    ensures Run(s, [a, b, c]) == Step(Step(Step(s, a), b), c)
  {
    TwoSteps(s, a, b);
    assert [a, b, c][..2] == [a, b];
  }

  lemma UpToStart(s0: State)
    requires s0 == State(1, false, [], 0, Free, map[0 := Running, 1 := Admitted], map[], [], [], [], [0], [])
    ensures Run(INITIAL, [TestFlag(0), TestFlag(1), Start(0)]) == s0
  {
    ThreeSteps(INITIAL, TestFlag(0), TestFlag(1), Start(0));
    assert Step(Step(Step(INITIAL, TestFlag(0)), TestFlag(1)), Start(0)).phase == s0.phase;
  }

  lemma UpToParked(s0: State, s1: State)
    requires s0 == State(1, false, [], 0, Free, map[0 := Running, 1 := Admitted], map[], [], [], [], [0], [])
    requires s1 == s0.(flag := true, list := [0], phase := map[0 := Finishing, 1 := Admitted], arrived := [0])
    ensures Step(Step(s0, PARK), Append(0)) == s1
  {
    assert Step(Step(s0, PARK), Append(0)).phase == s1.phase;
  }

  lemma UpToZero(s0: State, s1: State)
    requires s0 == State(1, false, [], 0, Free, map[0 := Running, 1 := Admitted], map[], [], [], [], [0], [])
    requires s1 == s0.(counter := 0, flag := true, list := [0],
                       phase := map[0 := SawZero, 1 := Admitted], arrived := [0], finished := [0])
    ensures Run(s0, [PARK, Append(0), Decrement(0)]) == s1
  {
    var s := s0.(flag := true, list := [0], phase := map[0 := Finishing, 1 := Admitted], arrived := [0]);
    ThreeSteps(s0, PARK, Append(0), Decrement(0));
    UpToParked(s0, s);
    assert Step(s, Decrement(0)).phase == s1.phase;
  }

  lemma UpToOverlap(s1: State)
    requires s1.flag && s1.counter == 0 && s1.mutex.Free? && s1.phase == map[0 := SawZero, 1 := Admitted]
    ensures var s := Run(s1, [TestHalted(0), Lock(0), Start(1)]); At(s, 0, Drain) && At(s, 1, Running) && s.counter == 1
  {
    ThreeSteps(s1, TestHalted(0), Lock(0), Start(1));
  }
}
