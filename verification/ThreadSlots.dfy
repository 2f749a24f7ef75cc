/** The slots that number the threads in the log (src/webRequestLogger.cpp). */
module ThreadSlots {

  type Thread = nat

  /** The id of a slot nobody has written his own into; no thread has it. */
  const NOBODY: Thread := 0

  datatype Answer = Slot(index: nat) | Overflow

  /** Where a thread is in `getThreadId`: about to test the flag of a slot, to read
      its id, to test and set its flag, or to write its own id. */
  datatype Place = Idle | Test(i: nat) | Read(i: nat) | Claim(i: nat) | Write(i: nat)

  /** `taker` is a history variable: who set the flag of a slot. */
  datatype State = State(flag: seq<bool>, id: seq<Thread>, place: map<Thread, Place>,
                         log: seq<(Thread, Answer)>, taker: seq<Thread>)
  {
    predicate Shaped() { |flag| == |id| == |taker| }
    function PlaceOf(t: Thread): Place { if t in place then place[t] else Idle }
    function At(t: Thread, p: Place): State { this.(place := place[t := p]) }
    function Answered(t: Thread, a: Answer): State { this.(place := place[t := Idle], log := log + [(t, a)]) }
  }

  /** One access of thread `t` to the shared slots. */
  function Step(s: State, t: Thread): (r: State)
    requires s.Shaped()
    ensures r.Shaped() && |r.flag| == |s.flag|
  {
    var n := |s.flag|;
    match s.PlaceOf(t)
    case Idle => s.At(t, Test(0))
    case Test(i) =>
      if i >= n then s.At(t, Claim(0))
      else if s.flag[i] then s.At(t, Read(i))
      else s.At(t, Test(i + 1))
    case Read(i) =>
      if i < n && s.id[i] == t then s.Answered(t, Slot(i)) else s.At(t, Test(i + 1))
    case Claim(i) =>
      if i >= n then s.Answered(t, Overflow)
      else if s.flag[i] then s.At(t, Claim(i + 1))
      else s.At(t, Write(i)).(flag := s.flag[i := true], taker := s.taker[i := t])
    case Write(i) =>
      if i < n then s.Answered(t, Slot(i)).(id := s.id[i := t]) else s
  }

  function Initial(n: nat): State {
    State(seq(n, _ => false), seq(n, _ => NOBODY), map[], [], seq(n, _ => NOBODY))
  }

  /** Any interleaving: the thread of each step. */
  function Run(n: nat, schedule: seq<Thread>): (s: State)
    ensures s.Shaped() && |s.flag| == n
  {
    if schedule == [] then Initial(n)
    else Step(Run(n, schedule[..|schedule| - 1]), schedule[|schedule| - 1])
  }

  // ------------------------------------------------------------------
  // What every step keeps
  // ------------------------------------------------------------------

  ghost predicate Taken(s: State)
    requires s.Shaped()
  {
    && (forall i :: 0 <= i < |s.flag| ==> (s.flag[i] <==> s.taker[i] != NOBODY))
    && (forall i :: 0 <= i < |s.flag| ==> s.id[i] == NOBODY || s.id[i] == s.taker[i])
    && (forall i, j :: 0 <= i < j < |s.flag| && s.taker[i] == s.taker[j] ==> s.taker[i] == NOBODY)
  }

  /** What thread `t` may rely on where it is. */
  ghost predicate Knows(s: State, t: Thread)
    requires s.Shaped()
  {
    match s.PlaceOf(t)
    case Idle => forall j :: 0 <= j < |s.flag| && s.taker[j] == t ==> s.id[j] == t
    case Test(i) => i <= |s.flag| && forall j :: 0 <= j < |s.flag| && s.taker[j] == t ==> s.id[j] == t && i <= j
    case Read(i) => i < |s.flag| && forall j :: 0 <= j < |s.flag| && s.taker[j] == t ==> s.id[j] == t && i <= j
    case Claim(i) =>
      && i <= |s.flag|
      && (forall j :: 0 <= j < |s.flag| ==> s.taker[j] != t)
      && (forall j :: 0 <= j < i ==> s.flag[j])
    case Write(i) => i < |s.flag| && s.taker[i] == t
  }

  ghost predicate Holds(s: State, e: (Thread, Answer))
    requires s.Shaped()
  {
    match e.1
    case Slot(i) => i < |s.flag| && s.id[i] == e.0 == s.taker[i]
    case Overflow => forall j :: 0 <= j < |s.flag| ==> s.flag[j] && s.taker[j] != e.0
  }

  ghost predicate Invariant(s: State) {
    && s.Shaped()
    && Taken(s)
    && (forall t :: t != NOBODY ==> Knows(s, t))
    && (forall k :: 0 <= k < |s.log| ==> s.log[k].0 != NOBODY && Holds(s, s.log[k]))
  }

  lemma StepOthers(s: State, t: Thread, u: Thread)
    requires Invariant(s) && t != NOBODY && u != NOBODY && u != t
    ensures Knows(Step(s, t), u)
  {
    var r := Step(s, t);
    assert r.PlaceOf(u) == s.PlaceOf(u);
    assert Knows(s, u) && Knows(s, t);
  }

  lemma StepSelf(s: State, t: Thread)
    requires Invariant(s) && t != NOBODY
    ensures Knows(Step(s, t), t)
  {
    assert Knows(s, t);
  }

  lemma StepTaken(s: State, t: Thread)
    requires Invariant(s) && t != NOBODY
    ensures Taken(Step(s, t))
  {
    assert Knows(s, t);
  }

  lemma StepLog(s: State, t: Thread, k: nat)
    requires Invariant(s) && t != NOBODY && k < |Step(s, t).log|
    ensures Step(s, t).log[k].0 != NOBODY && Holds(Step(s, t), Step(s, t).log[k])
  {
    assert Knows(s, t);
    if k < |s.log| { assert Holds(s, s.log[k]); }
  }

  lemma StepInvariant(s: State, t: Thread)
    requires Invariant(s) && t != NOBODY
    ensures Invariant(Step(s, t))
  {
    var r := Step(s, t);
    StepSelf(s, t);
    StepTaken(s, t);
    forall u | u != NOBODY ensures Knows(r, u) {
      if u != t { StepOthers(s, t, u); }
    }
    forall k | 0 <= k < |r.log| ensures r.log[k].0 != NOBODY && Holds(r, r.log[k]) { StepLog(s, t, k); }
  }

  lemma {:induction false} RunInvariant(n: nat, schedule: seq<Thread>)
    requires NOBODY !in schedule
    ensures Invariant(Run(n, schedule))
  {
    if schedule != [] {
      RunInvariant(n, schedule[..|schedule| - 1]);
      StepInvariant(Run(n, schedule[..|schedule| - 1]), schedule[|schedule| - 1]);
    }
  }

  /** Over every interleaving: a thread always gets the same answer, and two threads
      never get the same slot. */
  lemma AnswersAgree(n: nat, schedule: seq<Thread>, k: nat, l: nat)
    requires NOBODY !in schedule
    requires k < |Run(n, schedule).log| && l < |Run(n, schedule).log|
    ensures var log := Run(n, schedule).log;
            && (log[k].0 == log[l].0 ==> log[k].1 == log[l].1)
            && (log[k].1.Slot? && log[k].1 == log[l].1 ==> log[k].0 == log[l].0)
  {
    RunInvariant(n, schedule);
    var s := Run(n, schedule);
    assert Holds(s, s.log[k]) && Holds(s, s.log[l]);
  }

  // ------------------------------------------------------------------
  // When there are slots for all
  // ------------------------------------------------------------------

  ghost predicate Known(s: State, threads: set<Thread>) {
    && (forall t :: t in s.place ==> t in threads)
    && (forall i :: 0 <= i < |s.taker| ==> s.taker[i] == NOBODY || s.taker[i] in threads)
    && (forall k :: 0 <= k < |s.log| ==> s.log[k].0 in threads)
  }

  lemma {:induction false} RunKnown(n: nat, schedule: seq<Thread>, threads: set<Thread>)
    requires forall t :: t in schedule ==> t in threads
    ensures Known(Run(n, schedule), threads)
  {
    if schedule != [] {
      RunKnown(n, schedule[..|schedule| - 1], threads);
    }
  }

  lemma {:induction false} DistinctTakers(taker: seq<Thread>, threads: set<Thread>)
    requires forall i, j :: 0 <= i < j < |taker| ==> taker[i] != taker[j]
    requires forall i :: 0 <= i < |taker| ==> taker[i] in threads
    ensures |taker| <= |threads|
  {
    if taker != [] {
      var n := |taker| - 1;
      DistinctTakers(taker[..n], threads - {taker[n]});
    }
  }

  /** An overflow means that every slot is taken by another thread: it never happens
      as long as no more threads log than there are slots. */
  lemma OverflowMeansTooMany(n: nat, schedule: seq<Thread>, threads: set<Thread>, t: Thread)
    requires NOBODY !in schedule && forall u :: u in schedule ==> u in threads
    requires (t, Overflow) in Run(n, schedule).log
    ensures |threads| > n
    ensures var s := Run(n, schedule);
            forall i :: 0 <= i < n ==> s.flag[i] && s.taker[i] in threads && s.taker[i] != t
  {
    var s := Run(n, schedule);
    RunInvariant(n, schedule);
    RunKnown(n, schedule, threads);
    var k :| 0 <= k < |s.log| && s.log[k] == (t, Overflow);
    assert Holds(s, s.log[k]);
    DistinctTakers(s.taker, threads - {t});
  }

  // ------------------------------------------------------------------
  // A call that is not interrupted
  // ------------------------------------------------------------------

  /** The first slot from `i` on that has the id of `t`. */
  function Own(s: State, t: Thread, i: nat): (r: nat)
    requires s.Shaped() && i <= |s.flag|
    ensures i <= r <= |s.flag| && (r < |s.flag| ==> s.flag[r] && s.id[r] == t)
    ensures forall j :: i <= j < r ==> !(s.flag[j] && s.id[j] == t)
    decreases |s.flag| - i
  {
    if i == |s.flag| || (s.flag[i] && s.id[i] == t) then i else Own(s, t, i + 1)
  }

  /** The first free slot from `i` on. */
  function Free(s: State, i: nat): (r: nat)
    requires s.Shaped() && i <= |s.flag|
    ensures i <= r <= |s.flag| && (r < |s.flag| ==> !s.flag[r])
    ensures forall j :: i <= j < r ==> s.flag[j]
    decreases |s.flag| - i
  {
    if i == |s.flag| || !s.flag[i] then i else Free(s, i + 1)
  }

  function Reply(s: State, t: Thread): Answer
    requires s.Shaped()
  {
    if Own(s, t, 0) < |s.flag| then Slot(Own(s, t, 0))
    else if Free(s, 0) < |s.flag| then Slot(Free(s, 0)) else Overflow
  }

  /** The state after a whole call of `getThreadId`. */
  function Alone(s: State, t: Thread): State
    requires s.Shaped()
  {
    var free := Free(s, 0);
    var r := s.Answered(t, Reply(s, t));
    if Own(s, t, 0) < |s.flag| || free == |s.flag| then r
    else r.(flag := s.flag[free := true], id := s.id[free := t], taker := s.taker[free := t])
  }

  function Steps(s: State, t: Thread, k: nat): (r: State)
    requires s.Shaped()
    ensures r.Shaped()
    decreases k
  {
    if k == 0 then s else Steps(Step(s, t), t, k - 1)
  }

  lemma {:induction false} AloneClaims(s: State, t: Thread, i: nat) returns (k: nat)
    requires s.Shaped() && i <= |s.flag| && s.PlaceOf(t) == Claim(i) && t in s.place
    ensures var free := Free(s, i);
            Steps(s, t, k) == if free == |s.flag| then s.Answered(t, Overflow)
              else s.Answered(t, Slot(free))
                   .(flag := s.flag[free := true], id := s.id[free := t], taker := s.taker[free := t])
    decreases |s.flag| - i
  {
    var r := Step(s, t);
    if i == |s.flag| {
      k := 1;
      assert Steps(r, t, 0) == r;
    } else if s.flag[i] {
      k := AloneClaims(r, t, i + 1);
      FreeDepends(s, r, i + 1);
      k := k + 1;
    } else {
      assert Steps(Step(r, t), t, 0) == Step(r, t);
      assert Steps(r, t, 1) == Step(r, t);
      k := 2;
    }
  }

  lemma {:induction false} FreeDepends(s: State, r: State, i: nat)
    requires s.Shaped() && r.Shaped() && s.flag == r.flag && i <= |s.flag|
    ensures Free(s, i) == Free(r, i)
    decreases |s.flag| - i
  {
    if i < |s.flag| && s.flag[i] { FreeDepends(s, r, i + 1); }
  }

  lemma {:induction false} OwnDepends(s: State, r: State, t: Thread, i: nat)
    requires s.Shaped() && r.Shaped() && s.flag == r.flag && s.id == r.id && i <= |s.flag|
    ensures Own(s, t, i) == Own(r, t, i)
    decreases |s.flag| - i
  {
    if i < |s.flag| && !(s.flag[i] && s.id[i] == t) { OwnDepends(s, r, t, i + 1); }
  }

  lemma {:induction false} StepsAdd(s: State, t: Thread, k: nat, l: nat)
    requires s.Shaped()
    ensures Steps(s, t, k + l) == Steps(Steps(s, t, k), t, l)
    decreases k
  {
    if k > 0 { StepsAdd(Step(s, t), t, k - 1, l); }
  }

  lemma TestMiss(s: State, t: Thread, i: nat) returns (k: nat)
    requires s.Shaped() && i < |s.flag| && s.PlaceOf(t) == Test(i) && !(s.flag[i] && s.id[i] == t)
    ensures Steps(s, t, k) == s.At(t, Test(i + 1))
  {
    var r := Step(s, t);
    if s.flag[i] {
      assert Steps(Step(r, t), t, 0) == Step(r, t);
      assert Steps(r, t, 1) == Step(r, t);
      k := 2;
    } else {
      assert Steps(r, t, 0) == r;
      k := 1;
    }
  }

  lemma TestHit(s: State, t: Thread, i: nat)
    requires s.Shaped() && i < |s.flag| && s.PlaceOf(t) == Test(i) && s.flag[i] && s.id[i] == t
    ensures Steps(s, t, 2) == s.Answered(t, Slot(i))
  {
    var r := Step(s, t);
    assert Steps(Step(r, t), t, 0) == Step(r, t);
    assert Steps(r, t, 1) == Step(r, t);
  }

  lemma {:induction false} AloneTests(s: State, t: Thread, i: nat) returns (k: nat)
    requires s.Shaped() && i <= |s.flag| && s.PlaceOf(t) == Test(i)
    ensures var own := Own(s, t, i);
            Steps(s, t, k) == if own < |s.flag| then s.Answered(t, Slot(own)) else s.At(t, Claim(0))
    decreases |s.flag| - i
  {
    if i == |s.flag| {
      k := 1;
      assert Steps(Step(s, t), t, 0) == Step(s, t);
    } else if s.flag[i] && s.id[i] == t {
      k := 2;
      TestHit(s, t, i);
    } else {
      var r := s.At(t, Test(i + 1));
      var first := TestMiss(s, t, i);
      var rest := AloneTests(r, t, i + 1);
      OwnDepends(s, r, t, i + 1);
      StepsAdd(s, t, first, rest);
      k := first + rest;
    }
  }

  lemma CallStarts(s: State, t: Thread)
    requires s.Shaped() && s.PlaceOf(t) == Idle
    ensures Steps(s, t, 1) == s.At(t, Test(0))
  {
    var r := Step(s, t);
    assert Steps(r, t, 0) == r;
  }

  lemma AloneSearch(s: State, t: Thread) returns (k: nat)
    requires s.Shaped() && s.PlaceOf(t) == Idle
    ensures Steps(s, t, k) == if Own(s, t, 0) < |s.flag| then Alone(s, t) else s.At(t, Claim(0))
  {
    var r := s.At(t, Test(0));
    CallStarts(s, t);
    var tests := AloneTests(r, t, 0);
    OwnDepends(s, r, t, 0);
    StepsAdd(s, t, 1, tests);
    k := 1 + tests;
  }

  lemma AloneOccupies(s: State, t: Thread) returns (k: nat)
    requires s.Shaped() && Own(s, t, 0) == |s.flag|
    ensures Steps(s.At(t, Claim(0)), t, k) == Alone(s, t)
  {
    var q := s.At(t, Claim(0));
    k := AloneClaims(q, t, 0);
    FreeDepends(s, q, 0);
  }

  /** A call no other thread interrupts is the sequential function `Alone`. */
  lemma AloneIsSteps(s: State, t: Thread) returns (k: nat)
    requires s.Shaped() && s.PlaceOf(t) == Idle
    ensures Steps(s, t, k) == Alone(s, t)
  {
    k := AloneSearch(s, t);
    if Own(s, t, 0) == |s.flag| {
      var claims := AloneOccupies(s, t);
      StepsAdd(s, t, k, claims);
      k := k + claims;
    }
  }

  // ------------------------------------------------------------------
  // Labels
  // ------------------------------------------------------------------

  function Pow10(k: nat): (p: nat)
    ensures p >= 1
  {
    if k == 0 then 1 else 10 * Pow10(k - 1)
  }

  function Digit(d: nat): char
    requires d < 10
  {
    (d + 48) as char
  }

  function Decimal(x: nat): (r: string)
    ensures |r| >= 1
  {
    if x < 10 then [Digit(x)] else Decimal(x / 10) + [Digit(x % 10)]
  }

  function Zeros(k: nat): string { seq(k, _ => '0') }

  /** The format "%0*d". */
  function Format(width: nat, x: nat): string {
    var d := Decimal(x);
    if |d| < width then Zeros(width - |d|) + d else d
  }

  /** What fits into `idstr`, eight bytes with the terminating NUL. */
  function Label(width: nat, x: nat): string {
    var f := Format(width, x);
    if |f| <= 7 then f else f[..7]
  }

  /** Exactly `width` digits of `x`. */
  function Padded(width: nat, x: nat): (r: string)
    ensures |r| == width
  {
    if width == 0 then "" else Padded(width - 1, x / 10) + [Digit(x % 10)]
  }

  lemma {:induction false} PaddedZero(width: nat)
    ensures Padded(width, 0) == Zeros(width)
  {
    if width > 0 { PaddedZero(width - 1); }
  }

  lemma {:induction false} FormatIsPadded(width: nat, x: nat)
    requires width >= 1 && x < Pow10(width)
    ensures Format(width, x) == Padded(width, x) && |Decimal(x)| <= width
  {
    if x < 10 {
      PaddedZero(width - 1);
    } else {
      assert Pow10(width) == 10 * Pow10(width - 1);
      FormatIsPadded(width - 1, x / 10);
      var d := Decimal(x / 10);
      assert Zeros(width - 1 - |d|) + d == Padded(width - 1, x / 10);
      assert Zeros(width - 1 - |d|) + d + [Digit(x % 10)] == Zeros(width - 1 - |d|) + (d + [Digit(x % 10)]);
    }
  }

  /** The number a text of digits stands for. */
  function ValueOf(s: string): int {
    if s == "" then 0 else 10 * ValueOf(s[..|s| - 1]) + (s[|s| - 1] as int - '0' as int)
  }

  predicate IsDigits(s: string) { forall i :: 0 <= i < |s| ==> '0' <= s[i] <= '9' }

  lemma {:induction false} PaddedReads(width: nat, x: nat)
    requires x < Pow10(width)
    ensures IsDigits(Padded(width, x)) && ValueOf(Padded(width, x)) == x
  {
    if width > 0 {
      var p := Padded(width, x);
      PaddedReads(width - 1, x / 10);
      assert p[..width - 1] == Padded(width - 1, x / 10) && p[width - 1] == Digit(x % 10);
    }
  }

  /** A label that is not cut has the digits of its slot number, with zeros in front. */
  lemma LabelReads(width: nat, x: nat)
    requires 1 <= width <= 7 && x < Pow10(width)
    ensures |Label(width, x)| == width && IsDigits(Label(width, x)) && ValueOf(Label(width, x)) == x
  {
    FormatIsPadded(width, x);
    PaddedReads(width, x);
  }

  lemma {:induction false} PaddedInjective(width: nat, x: nat, y: nat)
    requires x < Pow10(width) && y < Pow10(width) && Padded(width, x) == Padded(width, y)
    ensures x == y
  {
    if width > 0 {
      var p, q := Padded(width, x), Padded(width, y);
      assert p[..width - 1] == Padded(width - 1, x / 10) && q[..width - 1] == Padded(width - 1, y / 10);
      assert p[width - 1] == Digit(x % 10) && q[width - 1] == Digit(y % 10);
      PaddedInjective(width - 1, x / 10, y / 10);
    }
  }

  lemma {:induction false} PaddedPrefix(width: nat, x: nat)
    requires width >= 8 && x < 10
    ensures Padded(width, x)[..7] == Zeros(7)
  {
    PaddedZero(width - 1);
  }

  /** Labels of the slots of a logger for `n` threads, as wide as `n` has digits:
      they tell the slots apart if and only if there are less than ten million. */
  lemma LabelsDistinct(n: nat, width: nat)
    requires n >= 2 && width >= 1 && Pow10(width - 1) <= n < Pow10(width)
    ensures (forall i, j :: 0 <= i < j < n ==> Label(width, i) != Label(width, j)) <==> n < Pow10(7)
    ensures forall i :: 0 <= i < n ==> |Label(width, i)| == if width <= 7 then width else 7
  {
    forall i | 0 <= i < n ensures Format(width, i) == Padded(width, i) { FormatIsPadded(width, i); }
    if n < Pow10(7) {
      if width >= 8 { Pow10Grows(7, width - 1); }
      forall i, j | 0 <= i < j < n ensures Label(width, i) != Label(width, j) {
        if Label(width, i) == Label(width, j) { PaddedInjective(width, i, j); }
      }
    } else {
      if width < 8 { Pow10Grows(width, 7); }
      PaddedPrefix(width, 0);
      PaddedPrefix(width, 1);
      assert Label(width, 0) == Label(width, 1);
    }
  }

  lemma {:induction false} Pow10Grows(k: nat, l: nat)
    requires k <= l
    ensures Pow10(k) <= Pow10(l)
  {
    if k < l { Pow10Grows(k, l - 1); }
  }

  /** The number of digits of `nofslots`, one if that is not positive; from 10^9 on the
      product leaves the range of int. */
  method NofSlotsPow(nofslots: int) returns (ii: nat, overflow: bool)
    ensures overflow <==> nofslots >= 1_000_000_000
    ensures ii >= 1 && (nofslots < 1 ==> ii == 1) && (nofslots >= 1 ==> Pow10(ii - 1) <= nofslots)
    ensures !overflow ==> nofslots < Pow10(ii) < 0x8000_0000
  {
    ii, overflow := 1, false;
    var xx := 10;
    assert Pow10(0) == 1;
    while xx <= nofslots
      invariant ii >= 1 && xx == Pow10(ii) <= 1_000_000_000
      invariant nofslots < 1 ==> ii == 1
      invariant nofslots >= 1 ==> Pow10(ii - 1) <= nofslots
      decreases nofslots - xx
    {
      if xx * 10 >= 0x8000_0000 {
        overflow := true;
        NineDigits(ii);
        return;
      }
      xx, ii := xx * 10, ii + 1;
      TenDigits(ii);
    }
  }

  lemma NineDigits(k: nat)
    requires Pow10(k) <= 1_000_000_000 && Pow10(k) * 10 >= 0x8000_0000
    ensures Pow10(k) == 1_000_000_000
  {
    assert Pow10(9) == 1_000_000_000 by { assert Pow10(3) == 1000; assert Pow10(6) == 1000000; }
    if k < 9 {
      assert Pow10(9) == 10 * Pow10(8);
      Pow10Grows(k, 8);
    } else {
      Pow10Grows(9, k);
    }
  }

  lemma TenDigits(k: nat)
    requires k >= 1 && Pow10(k - 1) < 1_000_000_000
    ensures Pow10(k) <= 1_000_000_000
  {
    if k > 9 { Pow10Grows(9, k - 1); }
    assert Pow10(9) == 1_000_000_000 by { assert Pow10(3) == 1000; assert Pow10(6) == 1000000; }
    if k <= 9 { Pow10Grows(k, 9); }
  }

  // ------------------------------------------------------------------
  // The slots in the heap
  // ------------------------------------------------------------------

  /** How the construction of a logger ends: an array of negative size is refused with an
      exception; the other two are undefined behaviour. */
  datatype Start = Started | NegativeSize | WidthOverflow | MissingSlot

  class Logger {
    var start: Start
    const flag: array<bool>
    const id: array<Thread>
    const idstr: array<string>
    const width: nat

    ghost predicate Valid()
      reads this, idstr
    {
      && start.Started? && flag.Length == id.Length == idstr.Length
      && forall i :: 0 <= i < idstr.Length ==> idstr[i] == Label(width, i)
    }

    ghost function Snapshot(): (s: State)
      reads flag, id
      requires flag.Length == id.Length
      ensures s.Shaped() && |s.flag| == flag.Length
    {
      State(flag[..], id[..], map[], [], seq(flag.Length, _ => NOBODY))
    }

    /** For zero threads the logger counts on one slot, and none was allocated. */
    constructor (maxnofthreads: int)
      ensures start == if maxnofthreads < 0 then NegativeSize else if maxnofthreads == 0 then MissingSlot
                       else if maxnofthreads < 1_000_000_000 then Started else WidthOverflow
      ensures start.Started? ==>
                && Valid() && fresh(flag) && fresh(id) && fresh(idstr)
                && Snapshot() == Initial(maxnofthreads)
                && width >= 1 && Pow10(width - 1) <= maxnofthreads < Pow10(width)
    {
      var slots := if maxnofthreads < 0 then 0 else maxnofthreads;
      flag := new bool[slots];
      id := new Thread[slots];
      idstr := new string[slots];
      var pow, overflow := NofSlotsPow(maxnofthreads);
      width := pow;
      start := if maxnofthreads < 0 then NegativeSize else if overflow then WidthOverflow else Started;
      new;
      if !start.Started? { return; }
      var nofslots := if maxnofthreads != 0 then maxnofthreads else 1;
      var si := 0;
      while si < nofslots
        invariant start.Started? && 0 <= si <= nofslots && si <= slots
        invariant forall i :: 0 <= i < si ==> idstr[i] == Label(width, i)
      {
        if si >= idstr.Length {
          start := MissingSlot;
          return;
        }
        idstr[si] := Label(width, si);
        si := si + 1;
      }
      Reset();
    }

    method Reset()
      requires Valid()
      modifies flag, id
      ensures Valid() && Snapshot() == Initial(flag.Length)
    {
      var ti := 0;
      while ti < flag.Length
        invariant 0 <= ti <= flag.Length
        invariant forall i :: 0 <= i < ti ==> !flag[i] && id[i] == NOBODY
      {
        id[ti] := NOBODY;
        flag[ti] := false;
        ti := ti + 1;
      }
    }

    /** A call that is not interrupted: the slot the thread has, or the first free one. */
    method GetThreadId(tid: Thread) returns (a: string)
      requires Valid() && tid != NOBODY
      modifies flag, id
      ensures Valid()
      ensures var s := old(Snapshot());
              && flag[..] == Alone(s, tid).flag && id[..] == Alone(s, tid).id
              && a == match Reply(s, tid) case Slot(i) => Label(width, i) case Overflow => "OVFL"
    {
      ghost var s := Snapshot();
      var ti := 0;
      while ti < flag.Length
        invariant 0 <= ti <= flag.Length && Own(s, tid, ti) == Own(s, tid, 0)
      {
        if flag[ti] && id[ti] == tid { return idstr[ti]; }
        ti := ti + 1;
      }
      ti := 0;
      while ti < flag.Length
        invariant 0 <= ti <= flag.Length && Free(s, ti) == Free(s, 0)
      {
        if !flag[ti] { break; }
        ti := ti + 1;
      }
      if ti == flag.Length { return "OVFL"; }
      flag[ti] := true;
      id[ti] := tid;
      a := idstr[ti];
    }
  }
}
