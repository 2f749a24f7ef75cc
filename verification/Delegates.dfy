/** The delegate protocol of one request (src/webRequestDelegateContext.cpp).

    A request context hands out batches of delegate requests.  A delegate with
    a URL is sent to another server and answers later through its receiver; a
    delegate without one is fed back to the request context at once.  All
    receivers of a batch share one counter, and the answer that brings the
    counter to zero asks the request context for the next batch. */
module Delegates {
  import opened Sequences

  /** A delegate request together with what its environment will do with it:
      whether sending it succeeds, whether the request context accepts its
      answer, and which delegates that answer gives rise to. */
  datatype Delegate = Delegate(hasUrl: bool, schema: string, sent: bool, accepted: bool, followUps: seq<Delegate>)

  /** What the protocol does, in order.  `SendFailed`, `Refused`, `Rejected`, `RaceReported`
      and `Completed` each finish the response and signal termination. */
  datatype Event =
    | Sent(d: Delegate)          // handed to another server
    | SendFailed(d: Delegate)    // could not be handed over
    | Put(d: Delegate)           // answer accepted by the request context
    | Refused(d: Delegate)       // answer refused by the request context
    | Rejected(d: Delegate)      // the other server answered with an error
    | Asked                      // the request context was asked for follow-ups
    | RaceReported               // "race: bad counter value"
    | Completed                  // the final answer was reported

  predicate IsResponse(e: Event) {
    e.SendFailed? || e.Refused? || e.Rejected? || e.RaceReported? || e.Completed?
  }

  function Responses(t: seq<Event>): nat {
    if t == [] then 0 else Responses(t[..|t| - 1]) + (if IsResponse(t[|t| - 1]) then 1 else 0)
  }

  /** Number of nodes of a forest of delegates. */
  function Size(ds: seq<Delegate>): nat {
    if ds == [] then 0 else 1 + Size(ds[0].followUps) + Size(ds[1..])
  }

  /** All nodes of a forest of delegates. */
  ghost function Nodes(ds: seq<Delegate>): multiset<Delegate> {
    if ds == [] then multiset{} else Just(ds[0]) + Nodes(ds[0].followUps) + Nodes(ds[1..])
  }

  ghost function Just(d: Delegate): multiset<Delegate> { multiset{d} }

  ghost function PutOf(e: Event): multiset<Delegate> {
    if e.Put? then Just(e.d) else multiset{}
  }

  /** The delegates whose answers were accepted so far. */
  ghost function Puts(t: seq<Event>): multiset<Delegate> {
    if t == [] then multiset{}
    else Puts(t[..|t| - 1]) + PutOf(t[|t| - 1])
  }

  lemma {:induction false} SizeAppend(a: seq<Delegate>, b: seq<Delegate>)
    ensures Size(a + b) == Size(a) + Size(b)
  {
    if a == [] {
      assert a + b == b;
    } else {
      assert (a + b)[1..] == a[1..] + b;
      SizeAppend(a[1..], b);
    }
  }

  lemma {:induction false} NodesAppend(a: seq<Delegate>, b: seq<Delegate>)
    ensures Nodes(a + b) == Nodes(a) + Nodes(b)
  {
    if a == [] {
      assert a + b == b;
    } else {
      assert (a + b)[1..] == a[1..] + b;
      NodesAppend(a[1..], b);
    }
  }

  lemma {:induction false} NodesCount(ds: seq<Delegate>)
    ensures |Nodes(ds)| == Size(ds)
  {
    if ds != [] {
      NodesCount(ds[0].followUps);
      NodesCount(ds[1..]);
    }
  }

  lemma {:induction false} PutsAppend(a: seq<Event>, b: seq<Event>)
    ensures Puts(a + b) == Puts(a) + Puts(b)
  {
    if b == [] {
      assert a + b == a;
    } else {
      assert (a + b)[..|a + b| - 1] == a + b[..|b| - 1];
      PutsAppend(a, b[..|b| - 1]);
    }
  }

  lemma {:induction false} ResponsesAppend(a: seq<Event>, b: seq<Event>)
    ensures Responses(a + b) == Responses(a) + Responses(b)
  {
    if b == [] {
      assert a + b == a;
    } else {
      assert (a + b)[..|a + b| - 1] == a + b[..|b| - 1];
      ResponsesAppend(a, b[..|b| - 1]);
    }
  }

  // ------------------------------------------------------------------
  // The issuing loop
  // ------------------------------------------------------------------

  /** Line 81 resets the counter of a follow-up batch to the size of the batch
      the loop was called with.  The size meant is that of the follow-up batch. */
  datatype Reset = ToOriginal | ToFollowUp

  /** State in which the issuing loop leaves the exchange: the shared counter,
      the delegates whose receivers are waiting on it, the follow-ups the
      request context has collected, and the events so far. */
  datatype Issued = Issued(counter: int, waiting: seq<Delegate>, pending: seq<Delegate>, trace: seq<Event>)

  /** The loop of issueDelegateRequests from any of its states: `queue` is what
      is left of the current batch, `n` the size the loop takes that batch to
      have, `didx` the loop index. */
  function Loop(reset: Reset, n: int, queue: seq<Delegate>, didx: nat, s: Issued): Issued
    decreases Size(queue) + Size(s.pending)
  {
    if queue == [] then s else
    var d, rest := queue[0], queue[1..];
    if d.hasUrl then
      if d.sent then
        Loop(reset, n, rest, didx + 1, s.(waiting := s.waiting + [d], trace := s.trace + [Sent(d)]))
      else
        s.(counter := 0, trace := s.trace + [SendFailed(d)])
    else if d.accepted then
      SizeAppend(s.pending, d.followUps);
      var p, t := s.pending + d.followUps, s.trace + [Put(d)];
      if s.counter - 1 != 0 then
        Loop(reset, n, rest, didx + 1, Issued(s.counter - 1, s.waiting, p, t))
      else
        var t' := t + (if didx + 1 != n then [RaceReported] else []) + [Asked];
        if p == [] then
          Loop(reset, n, rest, didx + 1, Issued(0, s.waiting, [], t' + [Completed]))
        else
          var n' := if reset.ToOriginal? then n else |p|;
          Loop(reset, n', p, 0, Issued(n', s.waiting, [], t'))
    else
      s.(counter := 0, trace := s.trace + [Refused(d)])
  }

  /** issueDelegateRequests called with batch `ds`. */
  function Issue(reset: Reset, ds: seq<Delegate>): Issued {
    Loop(reset, |ds|, ds, 0, Issued(|ds|, [], [], []))
  }

  // ------------------------------------------------------------------
  // What one batch is meant to do, without a counter
  // ------------------------------------------------------------------

  predicate Fails(d: Delegate) {
    if d.hasUrl then !d.sent else !d.accepted
  }

  /** Index of the first delegate of a batch that fails, or the batch size. */
  function FirstFailure(ds: seq<Delegate>): (f: nat)
    ensures f <= |ds|
    ensures forall i :: 0 <= i < f ==> !Fails(ds[i])
    ensures f < |ds| ==> Fails(ds[f])
  {
    if ds == [] || Fails(ds[0]) then 0 else 1 + FirstFailure(ds[1..])
  }

  /** The delegates of a batch that wait for another server. */
  function Remote(ds: seq<Delegate>): seq<Delegate> {
    if ds == [] then [] else (if ds[0].hasUrl then [ds[0]] else []) + Remote(ds[1..])
  }

  /** The follow-ups of the delegates fed back at once. */
  function FollowUps(ds: seq<Delegate>): seq<Delegate> {
    if ds == [] then [] else (if ds[0].hasUrl then [] else ds[0].followUps) + FollowUps(ds[1..])
  }

  function Handle(d: Delegate): Event {
    if d.hasUrl then if d.sent then Sent(d) else SendFailed(d)
    else if d.accepted then Put(d) else Refused(d)
  }

  function HandleAll(ds: seq<Delegate>): seq<Event> {
    seq(|ds|, i requires 0 <= i < |ds| => Handle(ds[i]))
  }

  lemma {:induction false} FollowUpsShrink(ds: seq<Delegate>)
    ensures Size(FollowUps(ds)) <= Size(ds)
    ensures ds != [] ==> Size(FollowUps(ds)) < Size(ds)
  {
    if ds != [] {
      FollowUpsShrink(ds[1..]);
      SizeAppend(if ds[0].hasUrl then [] else ds[0].followUps, FollowUps(ds[1..]));
    }
  }

  /** A batch handled as a whole: stop at the first failure; otherwise wait for
      the remote delegates, or, when there are none, go on with the follow-ups. */
  function Chain(ds: seq<Delegate>, t: seq<Event>): Issued
    decreases Size(ds)
  {
    var f := FirstFailure(ds);
    if f < |ds| then
      Issued(0, Remote(ds[..f]), FollowUps(ds[..f]), t + HandleAll(ds[..f + 1]))
    else if Remote(ds) != [] then
      Issued(|Remote(ds)|, Remote(ds), FollowUps(ds), t + HandleAll(ds))
    else if FollowUps(ds) == [] then
      Issued(0, [], [], t + HandleAll(ds) + [Asked, Completed])
    else
      FollowUpsShrink(ds);
      Chain(FollowUps(ds), t + HandleAll(ds) + [Asked])
  }

  lemma {:induction false} LoopExtends(reset: Reset, n: int, queue: seq<Delegate>, didx: nat, s: Issued)
    ensures s.trace <= Loop(reset, n, queue, didx, s).trace
    decreases Size(queue) + Size(s.pending)
  {
    if queue != [] {
      var d, rest := queue[0], queue[1..];
      if d.hasUrl {
        if d.sent {
          LoopExtends(reset, n, rest, didx + 1, s.(waiting := s.waiting + [d], trace := s.trace + [Sent(d)]));
        }
      } else if d.accepted {
        SizeAppend(s.pending, d.followUps);
        var p, t := s.pending + d.followUps, s.trace + [Put(d)];
        if s.counter - 1 != 0 {
          LoopExtends(reset, n, rest, didx + 1, Issued(s.counter - 1, s.waiting, p, t));
        } else {
          var t' := t + (if didx + 1 != n then [RaceReported] else []) + [Asked];
          if p == [] {
            LoopExtends(reset, n, rest, didx + 1, Issued(0, s.waiting, [], t' + [Completed]));
          } else {
            var n' := if reset.ToOriginal? then n else |p|;
            LoopExtends(reset, n', p, 0, Issued(n', s.waiting, [], t'));
          }
        }
      }
    }
  }

  lemma {:induction false} ChainExtends(ds: seq<Delegate>, t: seq<Event>)
    ensures t <= Chain(ds, t).trace
    decreases Size(ds)
  {
    if FirstFailure(ds) == |ds| && Remote(ds) == [] && FollowUps(ds) != [] {
      FollowUpsShrink(ds);
      ChainExtends(FollowUps(ds), t + HandleAll(ds) + [Asked]);
    }
  }

  /** The trace of a batch starts with its entries up to the first failure. */
  lemma ChainHandles(ds: seq<Delegate>, t: seq<Event>)
    ensures var f := FirstFailure(ds);
            f < |ds| ==> Chain(ds, t).trace == t + HandleAll(ds[..f + 1])
    ensures FirstFailure(ds) == |ds| ==>
              && t + HandleAll(ds) <= Chain(ds, t).trace
              && (Remote(ds) != [] <==> |Chain(ds, t).trace| == |t| + |ds|)
  {
    if FirstFailure(ds) == |ds| && Remote(ds) == [] && FollowUps(ds) != [] {
      var t' := t + HandleAll(ds) + [Asked];
      ChainExtends(FollowUps(ds), t');
      assert t + HandleAll(ds) <= t';
    }
  }

  /** Number of delegates of a batch that are fed back at once. */
  function Fed(ds: seq<Delegate>): nat {
    if ds == [] then 0 else (if ds[0].hasUrl then 0 else 1) + Fed(ds[1..])
  }

  lemma {:induction false} FedAndRemote(ds: seq<Delegate>)
    ensures Fed(ds) + |Remote(ds)| == |ds|
  {
    if ds != [] { FedAndRemote(ds[1..]); }
  }

  lemma {:induction false} RemoteAppend(a: seq<Delegate>, b: seq<Delegate>)
    ensures Remote(a + b) == Remote(a) + Remote(b)
  {
    if a == [] {
      assert a + b == b;
    } else {
      assert (a + b)[0] == a[0] && (a + b)[1..] == a[1..] + b;
      RemoteAppend(a[1..], b);
      Assoc(if a[0].hasUrl then [a[0]] else [], Remote(a[1..]), Remote(b));
    }
  }

  lemma {:induction false} FollowUpsAppend(a: seq<Delegate>, b: seq<Delegate>)
    ensures FollowUps(a + b) == FollowUps(a) + FollowUps(b)
  {
    if a == [] {
      assert a + b == b;
    } else {
      assert (a + b)[0] == a[0] && (a + b)[1..] == a[1..] + b;
      FollowUpsAppend(a[1..], b);
      Assoc(if a[0].hasUrl then [] else a[0].followUps, FollowUps(a[1..]), FollowUps(b));
    }
  }

  lemma {:induction false} FedAppend(a: seq<Delegate>, b: seq<Delegate>)
    ensures Fed(a + b) == Fed(a) + Fed(b)
    ensures Remote(a + b) == Remote(a) + Remote(b)
    ensures FollowUps(a + b) == FollowUps(a) + FollowUps(b)
  {
    RemoteAppend(a, b);
    FollowUpsAppend(a, b);
    FedAndRemote(a);
    FedAndRemote(b);
    FedAndRemote(a + b);
  }

  /** The loop's state after `ds` was handled without a failure. */
  function After(ds: seq<Delegate>, s: Issued): Issued {
    Issued(s.counter - Fed(ds), s.waiting + Remote(ds), s.pending + FollowUps(ds), s.trace + HandleAll(ds))
  }

  lemma HandleAllCons(a: seq<Delegate>)
    requires a != []
    ensures HandleAll(a) == [Handle(a[0])] + HandleAll(a[1..])
  {
  }

  lemma AfterStep(a: seq<Delegate>, s: Issued, s': Issued)
    requires a != []
    requires s' == if a[0].hasUrl then s.(waiting := s.waiting + [a[0]], trace := s.trace + [Handle(a[0])])
                   else Issued(s.counter - 1, s.waiting, s.pending + a[0].followUps, s.trace + [Handle(a[0])])
    ensures After(a, s) == After(a[1..], s')
  {
    HandleAllCons(a);
    assert s.trace + ([Handle(a[0])] + HandleAll(a[1..])) == s.trace + [Handle(a[0])] + HandleAll(a[1..]);
    if a[0].hasUrl {
      assert s.waiting + ([a[0]] + Remote(a[1..])) == s.waiting + [a[0]] + Remote(a[1..]);
      assert [] + FollowUps(a[1..]) == FollowUps(a[1..]);
    } else {
      assert s.pending + (a[0].followUps + FollowUps(a[1..])) == s.pending + a[0].followUps + FollowUps(a[1..]);
      assert [] + Remote(a[1..]) == Remote(a[1..]);
    }
  }

  lemma {:induction false} LoopThrough(reset: Reset, n: int, a: seq<Delegate>, b: seq<Delegate>, didx: nat, s: Issued)
    requires forall i :: 0 <= i < |a| ==> !Fails(a[i])
    requires Fed(a) < s.counter
    ensures Loop(reset, n, a + b, didx, s) == Loop(reset, n, b, didx + |a|, After(a, s))
    decreases |a|
  {
    if a == [] {
      assert a + b == b;
      assert After(a, s).trace == s.trace;
      assert After(a, s) == s;
    } else {
      var d := a[0];
      assert (a + b)[0] == d && (a + b)[1..] == a[1..] + b;
      var s' := if d.hasUrl then s.(waiting := s.waiting + [d], trace := s.trace + [Sent(d)])
      else Issued(s.counter - 1, s.waiting, s.pending + d.followUps, s.trace + [Put(d)]);
      LoopThrough(reset, n, a[1..], b, didx + 1, s');
      AfterStep(a, s, s');
    }
  }

  /** One batch whose size the loop knows, or which fails in time: the counter
      loop does what the batch is meant to do. */
  lemma {:induction false} LoopBatch(reset: Reset, n: int, ds: seq<Delegate>, t: seq<Event>)
    requires n > 0 && ds != [] && Fits(n, ds)
    ensures var f := FirstFailure(ds);
            Loop(reset, n, ds, 0, Issued(n, [], [], t)) ==
            if f == |ds| && Remote(ds) == [] && FollowUps(ds) != [] then
              var n' := if reset.ToOriginal? then n else |FollowUps(ds)|;
              Loop(reset, n', FollowUps(ds), 0, Issued(n', [], [], t + HandleAll(ds) + [Asked]))
            else Chain(ds, t)
  {
    if FirstFailure(ds) < |ds| {
      BatchFails(reset, n, ds, t);
    } else if Remote(ds) != [] {
      FedAndRemote(ds);
      assert ds == ds + [];
      LoopThrough(reset, n, ds, [], 0, Issued(n, [], [], t));
    } else {
      BatchFed(reset, n, ds, t);
    }
  }

  lemma {:induction false} BatchFails(reset: Reset, n: int, ds: seq<Delegate>, t: seq<Event>)
    requires n > 0 && FirstFailure(ds) < |ds| && Fits(n, ds)
    ensures Loop(reset, n, ds, 0, Issued(n, [], [], t)) == Chain(ds, t)
  {
    var f := FirstFailure(ds);
    var a, b, s := ds[..f], ds[f..], Issued(n, [], [], t);
    assert ds == a + b && b[0] == ds[f];
    FedAndRemote(a);
    LoopThrough(reset, n, a, b, 0, s);
    LoopStops(reset, n, b, f, After(a, s));
    FailingTrace(ds, f, t);
    assert [] + Remote(a) == Remote(a) && [] + FollowUps(a) == FollowUps(a);
  }

  lemma {:induction false} LoopStops(reset: Reset, n: int, queue: seq<Delegate>, didx: nat, s: Issued)
    requires queue != [] && Fails(queue[0])
    ensures Loop(reset, n, queue, didx, s) == s.(counter := 0, trace := s.trace + [Handle(queue[0])])
  {}

  lemma {:induction false} FailingTrace(ds: seq<Delegate>, f: nat, t: seq<Event>)
    requires f < |ds|
    ensures t + HandleAll(ds[..f + 1]) == t + HandleAll(ds[..f]) + [Handle(ds[f])]
  {
    assert HandleAll(ds[..f + 1]) == HandleAll(ds[..f]) + [Handle(ds[f])];
  }

  lemma BatchFed(reset: Reset, n: int, ds: seq<Delegate>, t: seq<Event>)
    requires ds != [] && |ds| == n && FirstFailure(ds) == |ds| && Remote(ds) == []
    ensures Loop(reset, n, ds, 0, Issued(n, [], [], t)) ==
            if FollowUps(ds) != [] then
              var n' := if reset.ToOriginal? then n else |FollowUps(ds)|;
              Loop(reset, n', FollowUps(ds), 0, Issued(n', [], [], t + HandleAll(ds) + [Asked]))
            else Issued(0, [], [], t + HandleAll(ds) + [Asked, Completed])
  {
    var a, d := ds[..n - 1], ds[n - 1];
    assert ds == a + [d];
    FedSplit(a, d);
    BatchButLast(reset, n, a, d, t);
    assert t + HandleAll(a) + [Put(d)] == t + HandleAll(ds);
    LastFed(reset, n, d, Issued(1, [], FollowUps(a), t + HandleAll(a)));
  }

  lemma BatchButLast(reset: Reset, n: int, a: seq<Delegate>, d: Delegate, t: seq<Event>)
    requires |a| + 1 == n && Remote(a) == [] && forall i :: 0 <= i < |a| ==> !Fails(a[i])
    ensures Loop(reset, n, a + [d], 0, Issued(n, [], [], t)) ==
            Loop(reset, n, [d], n - 1, Issued(1, [], FollowUps(a), t + HandleAll(a)))
  {
    FedAndRemote(a);
    LoopThrough(reset, n, a, [d], 0, Issued(n, [], [], t));
    assert [] + FollowUps(a) == FollowUps(a);
  }

  lemma FedSplit(a: seq<Delegate>, d: Delegate)
    requires Remote(a + [d]) == []
    ensures Remote(a) == [] && !d.hasUrl && FollowUps(a + [d]) == FollowUps(a) + d.followUps
    ensures HandleAll(a + [d]) == HandleAll(a) + [Handle(d)]
  {
    FedAppend(a, [d]);
    assert Remote([d]) == (if d.hasUrl then [d] else []) + Remote([]);
    assert FollowUps([d]) == (if d.hasUrl then [] else d.followUps) + FollowUps([]);
  }

  /** The delegate that brings the counter to zero at the end of its batch. */
  lemma {:induction false} LastFed(reset: Reset, n: int, d: Delegate, s: Issued)
    requires n > 0 && s.counter == 1 && s.waiting == [] && !d.hasUrl && d.accepted
    ensures var p, t := s.pending + d.followUps, s.trace + [Put(d)];
            Loop(reset, n, [d], n - 1, s) ==
            if p != [] then
              var n' := if reset.ToOriginal? then n else |p|;
              Loop(reset, n', p, 0, Issued(n', [], [], t + [Asked]))
            else Issued(0, [], [], t + [Asked, Completed])
  {
    var p, t := s.pending + d.followUps, s.trace + [Put(d)];
    assert [d][1..] == [];
    assert t + [] + [Asked] == t + [Asked];
    assert t + [Asked] + [Completed] == t + [Asked, Completed];
    if p == [] {
      var done := Issued(0, [], [], t + [Asked] + [Completed]);
      assert Loop(reset, n, [], n, done) == done;
    }
  }

  /** With the reset meant, the counting loop with its jump back, for every
      batch: it handles the batches of the chain one after the other, and the
      test for a bad counter value never fires. */
  lemma {:induction false} IssueRefinesChain(ds: seq<Delegate>, t: seq<Event>)
    requires ds != []
    ensures Loop(ToFollowUp, |ds|, ds, 0, Issued(|ds|, [], [], t)) == Chain(ds, t)
    decreases Size(ds)
  {
    LoopBatch(ToFollowUp, |ds|, ds, t);
    if FirstFailure(ds) == |ds| && Remote(ds) == [] && FollowUps(ds) != [] {
      FollowUpsShrink(ds);
      IssueRefinesChain(FollowUps(ds), t + HandleAll(ds) + [Asked]);
    }
  }

  // ------------------------------------------------------------------
  // The reset as it is written
  // ------------------------------------------------------------------

  /** A batch does no harm to a loop that believes its size to be `n`. */
  predicate Fits(n: int, ds: seq<Delegate>) {
    var f := FirstFailure(ds);
    |ds| == n || (f < |ds| && Fed(ds[..f]) < n)
  }

  /** Every batch of the self-fed chain starting with `ds` has the size `n` or
      fails before `n` of its delegates were fed back. */
  predicate ChainFits(n: int, ds: seq<Delegate>)
    decreases Size(ds)
  {
    && Fits(n, ds)
    && (FirstFailure(ds) == |ds| && Remote(ds) == [] && FollowUps(ds) != [] ==>
          (FollowUpsShrink(ds); ChainFits(n, FollowUps(ds))))
  }

  lemma {:induction false} FedIndex(ds: seq<Delegate>, n: nat) returns (i: nat)
    requires 0 < n <= Fed(ds)
    ensures i < |ds| && !ds[i].hasUrl && Fed(ds[..i]) == n - 1
  {
    if !ds[0].hasUrl && n == 1 {
      i := 0;
    } else {
      var j := FedIndex(ds[1..], if ds[0].hasUrl then n else n - 1);
      i := j + 1;
      assert ds[..i] == [ds[0]] + ds[1..][..j];
    }
  }

  /** A batch that does not fit: the loop and the batch disagree. */
  lemma {:induction false} MisfitDiffers(n: int, ds: seq<Delegate>, t: seq<Event>)
    requires n > 0 && ds != [] && !Fits(n, ds)
    ensures Loop(ToOriginal, n, ds, 0, Issued(n, [], [], t)) != Chain(ds, t)
  {
    var f := FirstFailure(ds);
    if Fed(ds[..f]) < n {
      assert ds[..f] == ds;
      NeverZero(n, ds, t);
    } else {
      var i := FedIndex(ds[..f], n);
      assert ds[..f][..i] == ds[..i];
      EarlyDiffers(n, ds, i, t);
    }
  }

  lemma EarlyDiffers(n: int, ds: seq<Delegate>, i: nat, t: seq<Event>)
    requires n > 0 && i < FirstFailure(ds) && !ds[i].hasUrl && Fed(ds[..i]) == n - 1 && |ds| != n
    ensures Loop(ToOriginal, n, ds, 0, Issued(n, [], [], t)) != Chain(ds, t)
  {
    EarlyZero(n, ds, i, t);
    ChainGoesOn(ds, i, t);
    if i + 1 == |ds| {
      FedLast(ds, i);
      FedAndRemote(ds);
    }
  }

  lemma FedLast(ds: seq<Delegate>, i: nat)
    requires i + 1 == |ds| && !ds[i].hasUrl
    ensures Fed(ds) == Fed(ds[..i]) + 1
  {
    assert ds[..i] + [ds[i]] == ds;
    FedAppend(ds[..i], [ds[i]]);
  }

  /** The counter stays above the number of delegates waited for. */
  lemma {:induction false} NeverZero(n: int, ds: seq<Delegate>, t: seq<Event>)
    requires ds != [] && |ds| != n && FirstFailure(ds) == |ds| && Fed(ds) < n
    ensures Loop(ToOriginal, n, ds, 0, Issued(n, [], [], t)) != Chain(ds, t)
  {
    assert ds + [] == ds;
    LoopThrough(ToOriginal, n, ds, [], 0, Issued(n, [], [], t));
    FedAndRemote(ds);
    ChainHandles(ds, t);
  }

  /** After entry `i` the batch proper goes on with its next entry, if any. */
  lemma {:induction false} ChainGoesOn(ds: seq<Delegate>, i: nat, t: seq<Event>)
    requires i < FirstFailure(ds)
    ensures var tr := Chain(ds, t).trace;
            && (i + 1 < |ds| ==> |tr| > |t| + i + 1 && tr[|t| + i + 1] == Handle(ds[i + 1]))
            && (i + 1 == |ds| && Remote(ds) != [] ==> |tr| == |t| + i + 1)
  {
    ChainHandles(ds, t);
    var f := FirstFailure(ds);
    if i + 1 < |ds| {
      var m := if f < |ds| then f + 1 else f;
      assert f == |ds| ==> ds[..m] == ds;
      var pre := t + HandleAll(ds[..m]);
      assert pre <= Chain(ds, t).trace;
      assert pre[|t| + i + 1] == HandleAll(ds[..m])[i + 1] == Handle(ds[i + 1]);
    }
  }

  /** The counter reaches zero at entry `i`: the loop asks for follow-ups there. */
  lemma {:induction false} EarlyZero(n: int, ds: seq<Delegate>, i: nat, t: seq<Event>)
    requires n > 0 && i < FirstFailure(ds) && !ds[i].hasUrl && Fed(ds[..i]) == n - 1
    ensures var tr := Loop(ToOriginal, n, ds, 0, Issued(n, [], [], t)).trace;
            |tr| > |t| + i + 1 && (tr[|t| + i + 1].RaceReported? || tr[|t| + i + 1].Asked?)
  {
    var before, race := BeforeZero(n, ds, i, t);
    NextEvent(before, race, Loop(ToOriginal, n, ds, 0, Issued(n, [], [], t)).trace);
  }

  lemma {:induction false} BeforeZero(n: int, ds: seq<Delegate>, i: nat, t: seq<Event>)
    returns (before: seq<Event>, race: seq<Event>)
    requires n > 0 && i < FirstFailure(ds) && !ds[i].hasUrl && Fed(ds[..i]) == n - 1
    ensures |before| == |t| + i + 1 && (race == [] || race == [RaceReported])
    ensures before + race + [Asked] <= Loop(ToOriginal, n, ds, 0, Issued(n, [], [], t)).trace
  {
    var a, d, b := ds[..i], ds[i], ds[i + 1..];
    assert ds == a + ([d] + b);
    var s1 := After(a, Issued(n, [], [], t));
    LoopThrough(ToOriginal, n, a, [d] + b, 0, Issued(n, [], [], t));
    ZeroExtends(n, d, b, i, s1);
    before, race := s1.trace + [Put(d)], if i + 1 != n then [RaceReported] else [];
  }

  lemma NextEvent(t: seq<Event>, race: seq<Event>, tr: seq<Event>)
    requires t + race + [Asked] <= tr && (race == [] || race == [RaceReported])
    ensures |tr| > |t| && (tr[|t|].RaceReported? || tr[|t|].Asked?)
  {}

  lemma {:induction false} ZeroExtends(n: int, d: Delegate, b: seq<Delegate>, i: nat, s: Issued)
    requires s.counter == 1 && !d.hasUrl && d.accepted
    ensures s.trace + [Put(d)] + (if i + 1 != n then [RaceReported] else []) + [Asked]
            <= Loop(ToOriginal, n, [d] + b, i, s).trace
  {
    assert ([d] + b)[1..] == b;
    var p, t' := s.pending + d.followUps, s.trace + [Put(d)] + (if i + 1 != n then [RaceReported] else []) + [Asked];
    if p == [] {
      LoopExtends(ToOriginal, n, b, i + 1, Issued(0, s.waiting, [], t' + [Completed]));
    } else {
      LoopExtends(ToOriginal, n, p, 0, Issued(n, s.waiting, [], t'));
    }
  }

  /** Line 81 as it is written does what is meant exactly when every self-fed
      follow-up batch has the size of the original one, or fails too early for
      the counter to matter. */
  lemma {:induction false} IssueAsWritten(n: int, ds: seq<Delegate>, t: seq<Event>)
    requires n > 0 && ds != []
    ensures Loop(ToOriginal, n, ds, 0, Issued(n, [], [], t)) == Chain(ds, t) <==> ChainFits(n, ds)
    decreases Size(ds)
  {
    if Fits(n, ds) {
      LoopBatch(ToOriginal, n, ds, t);
      if FirstFailure(ds) == |ds| && Remote(ds) == [] && FollowUps(ds) != [] {
        FollowUpsShrink(ds);
        IssueAsWritten(n, FollowUps(ds), t + HandleAll(ds) + [Asked]);
      }
    } else {
      MisfitDiffers(n, ds, t);
    }
  }

  const FED: Delegate := Delegate(false, "", true, true, [])
  const TWICE: Delegate := Delegate(false, "", true, true, [FED, FED])

  /** It happens: one delegate fed back at once, whose answer gives rise to two more. */
  lemma ResetMisfits(t: seq<Event>)
    ensures !ChainFits(1, [TWICE])
    ensures Loop(ToOriginal, 1, [TWICE], 0, Issued(1, [], [], t)) != Chain([TWICE], t)
  {
    assert [TWICE][1..] == [] && [FED, FED][1..] == [FED] && [FED][1..] == [];
    assert FollowUps([TWICE]) == [FED, FED] + [];
    assert FirstFailure([TWICE]) == 1 && Remote([TWICE]) == [];
    assert FirstFailure([FED, FED]) == 2;
    assert !Fits(1, [FED, FED]);
    IssueAsWritten(1, [TWICE], t);
  }

  // ------------------------------------------------------------------
  // Answers of the other servers
  // ------------------------------------------------------------------

  /** An answer as the receiver sees it. */
  datatype Status = Status(ok: bool, httpStatus: int)

  predicate Success(st: Status) {
    st.ok && 200 <= st.httpStatus < 300
  }

  /** putAnswer of the receiver of `waiting[k]`.  `s` describes the exchange
      with the counter that receiver shares. */
  function PutAnswer(reset: Reset, s: Issued, k: nat, st: Status): Issued
    requires k < |s.waiting|
  {
    var d, rest := s.waiting[k], s.waiting[..k] + s.waiting[k + 1..];
    if s.counter <= 0 then
      s.(waiting := rest)
    else if !Success(st) then
      s.(counter := 0, waiting := rest, trace := s.trace + [Rejected(d)])
    else if !d.accepted then
      s.(counter := 0, waiting := rest, trace := s.trace + [Refused(d)])
    else
      Decremented(reset, Issued(s.counter - 1, rest, s.pending + d.followUps, s.trace + [Put(d)]))
  }

  /** The counter was decremented: at zero, handleSuccess asks for follow-ups. */
  function Decremented(reset: Reset, s: Issued): Issued {
    if s.counter != 0 then s
    else if s.pending == [] then
      s.(trace := s.trace + [Asked, Completed])
    else
      var next := Issue(reset, s.pending);
      next.(trace := s.trace + [Asked] + next.trace)
  }

  /** What holds of an exchange that began with the batch `init`: while its
      batch is open the counter equals the delegates not yet answered, nobody
      got a response, and no node of the forest is lost; a closed one gave
      exactly one response; it completed only if every node was put. */
  ghost predicate Sound(init: seq<Delegate>, s: Issued) {
    && s.counter >= 0
    && (s.counter > 0 ==>
          && s.counter == |s.waiting|
          && Responses(s.trace) == 0
          && Nodes(init) == Puts(s.trace) + Nodes(s.waiting) + Nodes(s.pending))
    && (s.counter == 0 ==> Responses(s.trace) == 1)
    && RaceReported !in s.trace
    && (Completed in s.trace ==> s.counter == 0 && s.waiting == [] && Puts(s.trace) == Nodes(init))
  }

  lemma {:induction false} QuietTrace(t: seq<Event>)
    requires Responses(t) == 0
    ensures RaceReported !in t && Completed !in t
  {
    if t != [] {
      QuietTrace(t[..|t| - 1]);
      assert t == t[..|t| - 1] + [t[|t| - 1]];
    }
  }

  lemma Regroup(x: multiset<Delegate>, y: multiset<Delegate>, p: multiset<Delegate>,
                r: multiset<Delegate>, f: multiset<Delegate>)
    ensures x + y + (p + r + f) == p + (x + y + r) + f
    ensures x + y + (p + r + f) == (x + p) + r + (y + f)
  {
  }

  lemma RemoteNode(d: Delegate, rest: seq<Delegate>)
    requires d.hasUrl
    ensures Nodes(Remote([d] + rest)) == Just(d) + Nodes(d.followUps) + Nodes(Remote(rest))
    ensures FollowUps([d] + rest) == FollowUps(rest)
  {
    assert ([d] + rest)[1..] == rest;
    var r := [d] + Remote(rest);
    assert r[1..] == Remote(rest);
  }

  lemma FedNode(d: Delegate, rest: seq<Delegate>)
    requires !d.hasUrl
    ensures Nodes(FollowUps([d] + rest)) == Nodes(d.followUps) + Nodes(FollowUps(rest))
    ensures Remote([d] + rest) == Remote(rest)
  {
    assert ([d] + rest)[1..] == rest;
    NodesAppend(d.followUps, FollowUps(rest));
  }

  lemma PutsCons(e: Event, t: seq<Event>)
    ensures Puts([e] + t) == PutOf(e) + Puts(t)
  {
    PutsAppend([e], t);
    SingleEvent(e);
  }

  lemma {:induction false} BatchNodes(ds: seq<Delegate>)
    requires FirstFailure(ds) == |ds|
    ensures Nodes(ds) == Puts(HandleAll(ds)) + Nodes(Remote(ds)) + Nodes(FollowUps(ds))
  {
    if ds != [] {
      var d, rest := ds[0], ds[1..];
      assert FirstFailure(rest) == |rest| && !Fails(d);
      assert ds == [d] + rest;
      assert HandleAll(ds) == [Handle(d)] + HandleAll(rest);
      PutsCons(Handle(d), HandleAll(rest));
      if d.hasUrl { RemoteNode(d, rest); } else { FedNode(d, rest); }
      BatchNodes(rest);
      Regroup(Just(d), Nodes(d.followUps), Puts(HandleAll(rest)), Nodes(Remote(rest)), Nodes(FollowUps(rest)));
    }
  }

  lemma {:induction false} BatchIsQuiet(ds: seq<Delegate>)
    requires FirstFailure(ds) == |ds|
    ensures Responses(HandleAll(ds)) == 0
  {
    if ds != [] {
      assert HandleAll(ds) == [Handle(ds[0])] + HandleAll(ds[1..]);
      ResponsesAppend([Handle(ds[0])], HandleAll(ds[1..]));
      SingleEvent(Handle(ds[0]));
      BatchIsQuiet(ds[1..]);
    }
  }

  lemma SingleEvent(e: Event)
    ensures Puts([e]) == PutOf(e)
    ensures Responses([e]) == (if IsResponse(e) then 1 else 0)
  {
    assert [e][..0] == [];
  }

  lemma {:induction false} TraceAdd(t: seq<Event>, e: Event)
    ensures Puts(t + [e]) == Puts(t) + PutOf(e)
    ensures Responses(t + [e]) == Responses(t) + (if IsResponse(e) then 1 else 0)
  {
    PutsAppend(t, [e]);
    ResponsesAppend(t, [e]);
    SingleEvent(e);
  }

  /** A quiet trace that ends with one response. */
  lemma ClosedTrace(init: seq<Delegate>, s: Issued, t: seq<Event>, e: Event)
    requires Responses(t) == 0 && IsResponse(e) && e != RaceReported
    requires s.counter == 0 && s.trace == t + [e]
    requires e == Completed ==> s.waiting == [] && Puts(t) == Nodes(init)
    ensures Sound(init, s)
  {
    QuietTrace(t);
    TraceAdd(t, e);
  }

  /** A quiet trace of an open batch. */
  lemma OpenTrace(init: seq<Delegate>, s: Issued)
    requires Responses(s.trace) == 0 && s.counter == |s.waiting| > 0
    requires Nodes(init) == Puts(s.trace) + Nodes(s.waiting) + Nodes(s.pending)
    ensures Sound(init, s)
  {
    QuietTrace(s.trace);
  }

  /** The nodes of a batch handled without a failure. */
  lemma HandledBatch(init: seq<Delegate>, ds: seq<Delegate>, t: seq<Event>)
    requires FirstFailure(ds) == |ds| && Responses(t) == 0
    requires Nodes(init) == Puts(t) + Nodes(ds)
    ensures Nodes(init) == Puts(t + HandleAll(ds)) + Nodes(Remote(ds)) + Nodes(FollowUps(ds))
    ensures Responses(t + HandleAll(ds)) == 0
  {
    BatchNodes(ds);
    BatchIsQuiet(ds);
    PutsAppend(t, HandleAll(ds));
    ResponsesAppend(t, HandleAll(ds));
  }

  /** Issuing a batch that accounts for all unanswered nodes is sound. */
  lemma {:induction false} ChainIsSound(init: seq<Delegate>, ds: seq<Delegate>, t: seq<Event>)
    requires ds != [] && Responses(t) == 0
    requires Nodes(init) == Puts(t) + Nodes(ds)
    ensures Sound(init, Chain(ds, t))
    decreases Size(ds)
  {
    if FirstFailure(ds) < |ds| {
      ChainFails(init, ds, t);
    } else if Remote(ds) != [] {
      ChainWaits(init, ds, t);
    } else if FollowUps(ds) == [] {
      ChainCompletes(init, ds, t);
    } else {
      FollowUpsShrink(ds);
      HandledBatch(init, ds, t);
      FedBatch(init, t + HandleAll(ds), FollowUps(ds));
      ChainIsSound(init, FollowUps(ds), t + HandleAll(ds) + [Asked]);
    }
  }

  lemma ChainWaits(init: seq<Delegate>, ds: seq<Delegate>, t: seq<Event>)
    requires FirstFailure(ds) == |ds| && Remote(ds) != [] && Responses(t) == 0
    requires Nodes(init) == Puts(t) + Nodes(ds)
    ensures Sound(init, Chain(ds, t))
  {
    HandledBatch(init, ds, t);
    OpenTrace(init, Issued(|Remote(ds)|, Remote(ds), FollowUps(ds), t + HandleAll(ds)));
  }

  lemma ChainCompletes(init: seq<Delegate>, ds: seq<Delegate>, t: seq<Event>)
    requires FirstFailure(ds) == |ds| && Remote(ds) == [] && FollowUps(ds) == [] && Responses(t) == 0
    requires Nodes(init) == Puts(t) + Nodes(ds)
    ensures Sound(init, Chain(ds, t))
  {
    HandledBatch(init, ds, t);
    FedBatch(init, t + HandleAll(ds), []);
    assert t + HandleAll(ds) + [Asked] + [Completed] == t + HandleAll(ds) + [Asked, Completed];
    ClosedTrace(init, Issued(0, [], [], t + HandleAll(ds) + [Asked, Completed]),
                t + HandleAll(ds) + [Asked], Completed);
  }

  lemma FedBatch(init: seq<Delegate>, t: seq<Event>, next: seq<Delegate>)
    requires Nodes(init) == Puts(t) + Nodes([]) + Nodes(next) && Responses(t) == 0
    ensures Nodes(init) == Puts(t + [Asked]) + Nodes(next) && Responses(t + [Asked]) == 0
  {
    TraceAdd(t, Asked);
  }

  lemma ChainFails(init: seq<Delegate>, ds: seq<Delegate>, t: seq<Event>)
    requires FirstFailure(ds) < |ds| && Responses(t) == 0
    ensures Sound(init, Chain(ds, t))
  {
    var f := FirstFailure(ds);
    PrefixSucceeds(ds[..f]);
    BatchIsQuiet(ds[..f]);
    ResponsesAppend(t, HandleAll(ds[..f]));
    FailingTrace(ds, f, t);
    ClosedTrace(init, Chain(ds, t), t + HandleAll(ds[..f]), Handle(ds[f]));
  }

  lemma {:induction false} PrefixSucceeds(ds: seq<Delegate>)
    requires forall i :: 0 <= i < |ds| ==> !Fails(ds[i])
    ensures FirstFailure(ds) == |ds|
  {
    if ds != [] { PrefixSucceeds(ds[1..]); }
  }

  /** A fresh exchange is sound. */
  lemma IssueIsSound(init: seq<Delegate>)
    requires init != []
    ensures Sound(init, Issue(ToFollowUp, init))
  {
    IssueRefinesChain(init, []);
    ChainIsSound(init, init, []);
  }

  lemma {:induction false} LoopShift(reset: Reset, n: int, queue: seq<Delegate>, didx: nat, s: Issued, t: seq<Event>)
    ensures Loop(reset, n, queue, didx, s.(trace := t + s.trace)) ==
            (var r := Loop(reset, n, queue, didx, s); r.(trace := t + r.trace))
    decreases Size(queue) + Size(s.pending)
  {
    if queue != [] {
      var d, rest := queue[0], queue[1..];
      if d.hasUrl {
        if d.sent {
          var s' := s.(waiting := s.waiting + [d], trace := s.trace + [Sent(d)]);
          LoopShift(reset, n, rest, didx + 1, s', t);
          assert t + s.trace + [Sent(d)] == t + s'.trace;
        } else {
          assert t + s.trace + [SendFailed(d)] == t + (s.trace + [SendFailed(d)]);
        }
      } else if d.accepted {
        SizeAppend(s.pending, d.followUps);
        var p, t1 := s.pending + d.followUps, s.trace + [Put(d)];
        assert t + s.trace + [Put(d)] == t + t1;
        if s.counter - 1 != 0 {
          LoopShift(reset, n, rest, didx + 1, Issued(s.counter - 1, s.waiting, p, t1), t);
        } else {
          var x := (if didx + 1 != n then [RaceReported] else []);
          assert t + t1 + x + [Asked] == t + (t1 + x + [Asked]);
          if p == [] {
            assert t + (t1 + x + [Asked]) + [Completed] == t + (t1 + x + [Asked] + [Completed]);
            LoopShift(reset, n, rest, didx + 1, Issued(0, s.waiting, [], t1 + x + [Asked] + [Completed]), t);
          } else {
            var n' := if reset.ToOriginal? then n else |p|;
            LoopShift(reset, n', p, 0, Issued(n', s.waiting, [], t1 + x + [Asked]), t);
          }
        }
      } else {
        assert t + s.trace + [Refused(d)] == t + (s.trace + [Refused(d)]);
      }
    }
  }

  /** Follow-up batches issued from a callback continue the chain. */
  lemma IssueAfter(p: seq<Delegate>, t: seq<Event>)
    requires p != []
    ensures var next := Issue(ToFollowUp, p); next.(trace := t + next.trace) == Chain(p, t)
  {
    LoopShift(ToFollowUp, |p|, p, 0, Issued(|p|, [], [], []), t);
    assert t + [] == t;
    IssueRefinesChain(p, t);
  }

  lemma {:induction false} WaitingSplit(w: seq<Delegate>, k: nat)
    requires k < |w|
    ensures Nodes(w) == Just(w[k]) + Nodes(w[k].followUps) + Nodes(w[..k] + w[k + 1..])
  {
    assert w == w[..k] + ([w[k]] + w[k + 1..]);
    NodesAppend(w[..k], [w[k]] + w[k + 1..]);
    NodesAppend(w[..k], w[k + 1..]);
    assert ([w[k]] + w[k + 1..])[1..] == w[k + 1..];
  }

  /** Every answer keeps the exchange sound; an answer to a closed exchange
      changes nothing but that its receiver is gone. */
  lemma {:induction false} AnswerIsSound(init: seq<Delegate>, s: Issued, k: nat, st: Status)
    requires Sound(init, s) && k < |s.waiting|
    ensures Sound(init, PutAnswer(ToFollowUp, s, k, st))
    ensures s.counter == 0 ==>
              var s' := PutAnswer(ToFollowUp, s, k, st);
              s'.counter == 0 && s'.trace == s.trace && s'.pending == s.pending
  {
    if s.counter > 0 {
      var d := s.waiting[k];
      QuietTrace(s.trace);
      TraceAdd(s.trace, Rejected(d));
      TraceAdd(s.trace, Refused(d));
      if Success(st) && d.accepted {
        AcceptedIsSound(init, s, k, st);
      }
    }
  }

  /** Accepting an answer moves its node to the puts and its follow-ups to the pending ones. */
  lemma AcceptedNode(init: seq<Delegate>, s: Issued, k: nat)
    requires k < |s.waiting|
    requires Nodes(init) == Puts(s.trace) + Nodes(s.waiting) + Nodes(s.pending)
    ensures var d := s.waiting[k];
            Nodes(init) == Puts(s.trace + [Put(d)]) + Nodes(s.waiting[..k] + s.waiting[k + 1..])
                           + Nodes(s.pending + d.followUps)
  {
    var d := s.waiting[k];
    WaitingSplit(s.waiting, k);
    NodesAppend(s.pending, d.followUps);
    TraceAdd(s.trace, Put(d));
  }

  lemma {:induction false} AcceptedIsSound(init: seq<Delegate>, s: Issued, k: nat, st: Status)
    requires Sound(init, s) && k < |s.waiting| && s.counter > 0 && Success(st) && s.waiting[k].accepted
    ensures Sound(init, PutAnswer(ToFollowUp, s, k, st))
  {
    var d, rest := s.waiting[k], s.waiting[..k] + s.waiting[k + 1..];
    AcceptedNode(init, s, k);
    TraceAdd(s.trace, Put(d));
    DecrementedIsSound(init, Issued(s.counter - 1, rest, s.pending + d.followUps, s.trace + [Put(d)]));
  }

  lemma DecrementedIsSound(init: seq<Delegate>, s: Issued)
    requires Responses(s.trace) == 0 && s.counter == |s.waiting|
    requires Nodes(init) == Puts(s.trace) + Nodes(s.waiting) + Nodes(s.pending)
    ensures Sound(init, Decremented(ToFollowUp, s))
  {
    var t := s.trace + [Asked];
    if s.counter != 0 {
      OpenTrace(init, s);
    } else {
      FedBatch(init, s.trace, s.pending);
      if s.pending == [] {
        assert t + [Completed] == s.trace + [Asked, Completed];
        ClosedTrace(init, Decremented(ToFollowUp, s), t, Completed);
      } else {
        IssueAfter(s.pending, t);
        ChainIsSound(init, s.pending, t);
      }
    }
  }

  // ------------------------------------------------------------------
  // Whole exchanges
  // ------------------------------------------------------------------

  datatype Reply = Reply(k: nat, st: Status)

  /** All states of an exchange: the answers arrive in any order; `k` counts
      the receivers still to be called. */
  function Exchange(s: Issued, replies: seq<Reply>): Issued {
    if replies == [] then s
    else
      var s' := Exchange(s, replies[..|replies| - 1]);
      var r := replies[|replies| - 1];
      if r.k < |s'.waiting| then PutAnswer(ToFollowUp, s', r.k, r.st) else s'
  }

  /** Number of answers that met an open batch. */
  function Effective(s: Issued, replies: seq<Reply>): nat {
    if replies == [] then 0
    else
      var s' := Exchange(s, replies[..|replies| - 1]);
      Effective(s, replies[..|replies| - 1]) +
      (if replies[|replies| - 1].k < |s'.waiting| && s'.counter > 0 then 1 else 0)
  }

  /** The batch invariant over every exchange: see `Sound`. */
  lemma {:induction false} ExchangeIsSound(init: seq<Delegate>, replies: seq<Reply>)
    requires init != []
    ensures Sound(init, Exchange(Issue(ToFollowUp, init), replies))
  {
    if replies == [] {
      IssueIsSound(init);
    } else {
      var before := replies[..|replies| - 1];
      ExchangeIsSound(init, before);
      var s, r := Exchange(Issue(ToFollowUp, init), before), replies[|replies| - 1];
      if r.k < |s.waiting| { AnswerIsSound(init, s, r.k, r.st); }
    }
  }

  /** The final answer is reported only after every delegate of every batch of
      the chain was put, and then nobody is waiting any more. */
  lemma CompletedMeansAllPut(init: seq<Delegate>, replies: seq<Reply>)
    requires init != []
    requires Completed in Exchange(Issue(ToFollowUp, init), replies).trace
    ensures var s := Exchange(Issue(ToFollowUp, init), replies);
            Puts(s.trace) == Nodes(init) && s.waiting == [] && Responses(s.trace) == 1
  {
    ExchangeIsSound(init, replies);
  }

  /** An answer after which the batch is still open was put. */
  lemma {:induction false} AnswerIsPut(s: Issued, k: nat, st: Status)
    requires k < |s.waiting| && PutAnswer(ToFollowUp, s, k, st).counter > 0
    ensures |Puts(PutAnswer(ToFollowUp, s, k, st).trace)| > |Puts(s.trace)|
  {
    var d, rest := s.waiting[k], s.waiting[..k] + s.waiting[k + 1..];
    TraceAdd(s.trace, Put(d));
    DecrementedExtends(Issued(s.counter - 1, rest, s.pending + d.followUps, s.trace + [Put(d)]));
  }

  lemma DecrementedExtends(s: Issued)
    ensures |Puts(Decremented(ToFollowUp, s).trace)| >= |Puts(s.trace)|
  {
    var t' := Decremented(ToFollowUp, s).trace;
    assert s.trace <= t';
    assert t' == s.trace + t'[|s.trace|..];
    PutsAppend(s.trace, t'[|s.trace|..]);
  }

  lemma SizeAtLeastLength(ds: seq<Delegate>)
    ensures Size(ds) >= |ds|
  {
  }

  /** The chain of callbacks ends: at most as many answers as there are nodes
      in the forest ever meet an open batch, and while a batch is open the
      nodes unanswered are what is left of the forest. */
  lemma {:induction false} ExchangeTerminates(init: seq<Delegate>, replies: seq<Reply>)
    requires init != []
    ensures var s0 := Issue(ToFollowUp, init);
            var s := Exchange(s0, replies);
            && Effective(s0, replies) <= Size(init)
            && (s.counter > 0 ==> Effective(s0, replies) + Size(s.waiting) + Size(s.pending) <= Size(init))
  {
    var s0 := Issue(ToFollowUp, init);
    ExchangeCounts(init, replies);
    if replies != [] {
      var before := replies[..|replies| - 1];
      ExchangeTerminates(init, before);
      var b := Exchange(s0, before);
      ExchangeIsSound(init, before);
      SizeAtLeastLength(b.waiting);
    }
  }

  lemma OpenCount(init: seq<Delegate>, s: Issued)
    requires Sound(init, s) && s.counter > 0
    ensures |Puts(s.trace)| + Size(s.waiting) + Size(s.pending) == Size(init)
  {
    NodesCount(init);
    NodesCount(s.waiting);
    NodesCount(s.pending);
  }

  lemma {:induction false} ExchangeCounts(init: seq<Delegate>, replies: seq<Reply>)
    requires init != []
    ensures var s0 := Issue(ToFollowUp, init);
            var s := Exchange(s0, replies);
            s.counter > 0 ==>
              && |Puts(s.trace)| + Size(s.waiting) + Size(s.pending) == Size(init)
              && Effective(s0, replies) <= |Puts(s.trace)|
  {
    var s0 := Issue(ToFollowUp, init);
    var s := Exchange(s0, replies);
    ExchangeIsSound(init, replies);
    if s.counter > 0 {
      OpenCount(init, s);
      if replies != [] {
        var before, r := replies[..|replies| - 1], replies[|replies| - 1];
        ExchangeCounts(init, before);
        ExchangeIsSound(init, before);
        var b := Exchange(s0, before);
        if r.k < |b.waiting| {
          assert s == PutAnswer(ToFollowUp, b, r.k, r.st);
          AnswerIsPut(b, r.k, r.st);
        }
      }
    }
  }
}
