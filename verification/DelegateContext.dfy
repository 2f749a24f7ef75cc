/** The objects of the delegate protocol (src/webRequestDelegateContext.hpp and
    .cpp): receivers that share a counter, and the exchange they all work on. */
module DelegateContext {
  import opened DelegateOutcomes
  import opened Delegates

  /** The counter shared by the receivers of a batch. */
  class Counter {
    var value: int

    constructor (value: int)
      ensures this.value == value
    {
      this.value := value;
    }
  }

  /** The response to an answer, by its status: an error or a status outside 200 to 299
      closes the batch, and so does a request context that does not accept the answer. */
  predicate Answers(st: Status, d: Delegate, before: seq<Event>, after: seq<Event>, counter: int) {
    if !st.ok || st.httpStatus < 200 || st.httpStatus > 299 then counter == 0 && after == before + [Rejected(d)]
    else if !d.accepted then counter == 0 && after == before + [Refused(d)]
    else before + [Put(d)] <= after
  }

  /** The receiver of the answer of one delegate request. */
  class Receiver {
    const exchange: Exchange
    const counter: Counter
    const requestCount: int
    const delegate: Delegate

    constructor (exchange: Exchange, counter: Counter, delegate: Delegate)
      ensures this.exchange == exchange && this.counter == counter && this.delegate == delegate
      ensures this.requestCount == counter.value
    {
      this.exchange, this.counter, this.delegate := exchange, counter, delegate;
      this.requestCount := counter.value;
    }

    /** The answer arrives.  The exchange as this receiver sees it, alone with
        its counter, goes the step of `Delegates.PutAnswer`; receivers of a new
        batch share a new counter. */
    method PutAnswer(reset: Reset, st: Status)
      modifies exchange, counter
      ensures old(counter.value) <= 0 ==>
                counter.value == old(counter.value) && exchange.trace == old(exchange.trace) &&
                exchange.pending == old(exchange.pending) && exchange.outbox == old(exchange.outbox)
      ensures old(counter.value) > 0 ==>
                counter.value == if Success(st) && delegate.accepted then old(counter.value) - 1 else 0
      ensures old(counter.value) > 0 ==>
                Answers(st, delegate, old(exchange.trace), exchange.trace, counter.value)
      ensures var s := old(Issued(counter.value, [delegate], exchange.pending, exchange.trace));
              var s' := Delegates.PutAnswer(reset, s, 0, st);
              && exchange.trace == s'.trace
              && exchange.pending == s'.pending
              && exchange.Handed(old(exchange.outbox), s'.waiting)
              && exchange.Batch(|old(exchange.outbox)|, s'.counter)
              && fresh(exchange.Counters(|old(exchange.outbox)|))
    {
      if counter.value <= 0 { return; }
      if Success(st) {
        if delegate.accepted {
          exchange.Put(delegate);
          counter.value := counter.value - 1;
          if counter.value == 0 {
            PutFirst(reset, Issued(0, [], exchange.pending, exchange.trace));
            HandleSuccess(reset);
          }
        } else {
          HandleFailure(Refused(delegate));
        }
      } else {
        HandleFailure(Rejected(delegate));
      }
    }

    /** The batch is complete: ask for follow-ups, issue them or complete. */
    method HandleSuccess(reset: Reset)
      modifies exchange
      ensures var s := old(Issued(0, [], exchange.pending, exchange.trace));
              var s' := Decremented(reset, s);
              && exchange.trace == s'.trace
              && exchange.pending == s'.pending
              && exchange.Handed(old(exchange.outbox), s'.waiting)
              && exchange.Batch(|old(exchange.outbox)|, s'.counter)
              && fresh(exchange.Counters(|old(exchange.outbox)|))
    {
      var follow := exchange.GetDelegateRequests();
      if follow == [] {
        exchange.trace := exchange.trace + [Completed];
        assert exchange.trace == old(exchange.trace) + [Asked, Completed];
      } else {
        LoopShift(reset, |follow|, follow, 0, Issued(|follow|, [], [], []), exchange.trace);
        assert exchange.trace + [] == exchange.trace;
        var _ := exchange.IssueDelegateRequests(reset, follow);
      }
    }

    /** The response is finished first, then the counter is cleared. */
    method HandleFailure(e: Event)
      modifies exchange, counter
      ensures exchange.trace == old(exchange.trace) + [e] && counter.value == 0
      ensures exchange.pending == old(exchange.pending) && exchange.outbox == old(exchange.outbox)
    {
      exchange.trace := exchange.trace + [e];
      counter.value := 0;
    }
  }

  /** One request's exchange with its delegates: the follow-ups its context has
      collected, what was done so far, and every receiver handed out. */
  class Exchange {
    var pending: seq<Delegate>
    var trace: seq<Event>
    var outbox: seq<Receiver>

    constructor ()
      ensures pending == [] && trace == [] && outbox == []
    {
      pending, trace, outbox := [], [], [];
    }

    /** Receivers for exactly the delegates `ds` were handed out after those of `before`. */
    ghost predicate Handed(before: seq<Receiver>, ds: seq<Delegate>)
      reads this
    {
      && |outbox| == |before| + |ds|
      && outbox[..|before|] == before
      && forall j :: |before| <= j < |outbox| ==> outbox[j].exchange == this && outbox[j].delegate == ds[j - |before|]
    }

    /** The receivers from number `from` on share `counter`. */
    ghost predicate Share(from: nat, counter: Counter)
      reads this
    {
      forall j :: from <= j < |outbox| ==> outbox[j].counter == counter
    }

    /** The receivers from number `from` on share one counter, which has this value. */
    ghost predicate Batch(from: nat, value: int)
      reads this, Counters(from)
    {
      forall j :: from <= j < |outbox| ==>
        outbox[j].counter == outbox[from].counter && outbox[j].counter.value == value
    }

    ghost function Counters(from: nat): set<Counter>
      reads this
    {
      set j | from <= j < |outbox| :: outbox[j].counter
    }

    /** putDelegateRequestAnswer, accepted. */
    method Put(d: Delegate)
      modifies this
      ensures pending == old(pending) + d.followUps && trace == old(trace) + [Delegates.Put(d)]
      ensures outbox == old(outbox)
    {
      pending := pending + d.followUps;
      trace := trace + [Delegates.Put(d)];
    }

    /** getDelegateRequests: hands out what was collected. */
    method GetDelegateRequests() returns (ds: seq<Delegate>)
      modifies this
      ensures ds == old(pending) && pending == [] && trace == old(trace) + [Asked]
      ensures outbox == old(outbox)
    {
      ds := pending;
      pending := [];
      trace := trace + [Asked];
    }

    /** delegateRequest, accepted by the event loop: a receiver waits for the answer. */
    method Send(counter: Counter, d: Delegate, ghost before: seq<Receiver>, ghost waiting: seq<Delegate>)
      requires Handed(before, waiting) && Share(|before|, counter)
      modifies this
      ensures Handed(before, waiting + [d]) && Share(|before|, counter)
      ensures trace == old(trace) + [Sent(d)] && pending == old(pending)
      ensures |outbox| == |old(outbox)| + 1 && outbox[..|old(outbox)|] == old(outbox)
      ensures var r := outbox[|old(outbox)|]; r.exchange == this && r.counter == counter && r.delegate == d
    {
      var receiver := new Receiver(this, counter, d);
      outbox := outbox + [receiver];
      trace := trace + [Sent(d)];
    }

    /** A delegate whose answer is accepted inside the loop.  If it brings the
        counter to zero the follow-ups are asked for, and issued if there are any. */
    method Feed(counter: Counter, d: Delegate, didx: nat, requestCount: int) returns (follow: seq<Delegate>)
      modifies this, counter
      ensures outbox == old(outbox) && counter.value == old(counter.value) - 1
      ensures var p, t := old(pending) + d.followUps, old(trace) + [Delegates.Put(d)];
              if counter.value != 0 then
                pending == p && trace == t && follow == []
              else
                var t' := t + (if didx + 1 != requestCount then [RaceReported] else []) + [Asked];
                follow == p && pending == [] && trace == if p == [] then t' + [Completed] else t'
    {
      follow := [];
      Put(d);
      counter.value := counter.value - 1;
      if counter.value == 0 {
        if didx + 1 != requestCount {
          trace := trace + [RaceReported];
        } else {
          assert trace + [] == trace;
        }
        follow := GetDelegateRequests();
        if follow == [] {
          trace := trace + [Completed];
        }
      }
    }

    /** The issuing loop with its jump back.  `reset` is the assignment of line
        81: as it is written, or as it is meant. */
    method IssueDelegateRequests(reset: Reset, requests: seq<Delegate>) returns (counter: Counter)
      modifies this
      ensures fresh(counter)
      ensures var s := Loop(reset, |requests|, requests, 0, Issued(|requests|, [], old(pending), old(trace)));
              && counter.value == s.counter && pending == s.pending && trace == s.trace
              && Handed(old(outbox), s.waiting)
      ensures Share(|old(outbox)|, counter)
    {
      counter := new Counter(|requests|);
      ghost var goal := Loop(reset, |requests|, requests, 0, Issued(|requests|, [], pending, trace));
      ghost var waiting := [];
      var requestCount, queue, didx := |requests|, requests, 0;
      while queue != []
        invariant fresh(counter) && 0 <= didx
        invariant Loop(reset, requestCount, queue, didx, Issued(counter.value, waiting, pending, trace)) == goal
        invariant Handed(old(outbox), waiting)
        invariant Share(|old(outbox)|, counter)
        decreases Size(queue) + Size(pending)
      {
        var d := queue[0];
        if d.hasUrl && d.sent {
          Send(counter, d, old(outbox), waiting);
          waiting := waiting + [d];
          queue, didx := queue[1..], didx + 1;
        } else if !d.hasUrl && d.accepted {
          SizeAppend(pending, d.followUps);
          var follow := Feed(counter, d, didx, requestCount);
          if follow == [] {
            queue, didx := queue[1..], didx + 1;
          } else {
            requestCount := if reset.ToOriginal? then requestCount else |follow|;
            counter.value := requestCount;
            queue, didx := follow, 0;
          }
        } else {
          counter.value := 0;
          trace := trace + [if d.hasUrl then SendFailed(d) else Refused(d)];
          return;
        }
      }
    }

    /** All objects of the exchange together are in the state `s` of the protocol:
        `waiting` are the receivers `s` has waiting, in its order, and they share
        `counter`; any other receiver handed out shares it too, or a counter that is
        used up, so that its answer comes to nothing. */
    ghost predicate Tied(waiting: seq<Receiver>, counter: Counter, s: Issued)
      reads this, counter, Counters(0)
    {
      && counter.value == s.counter && pending == s.pending && trace == s.trace
      && |waiting| == |s.waiting|
      && (forall j :: 0 <= j < |waiting| ==>
            waiting[j] in outbox && waiting[j].counter == counter && waiting[j].delegate == s.waiting[j])
      && (forall j :: 0 <= j < |outbox| ==>
            outbox[j].exchange == this && (outbox[j].counter == counter || outbox[j].counter.value <= 0))
    }

    /** The receiver of `waiting[k]` takes its step to `a`, and with it the whole exchange
        goes from `s` to `t`. */
    method Receive(waiting: seq<Receiver>, counter: Counter, k: nat, st: Status,
                   ghost s: Issued, ghost a: Issued, ghost t: Issued)
      returns (left: seq<Receiver>, shared: Counter)
      requires Tied(waiting, counter, s) && k < |waiting|
      requires a == Delegates.PutAnswer(ToFollowUp, Alone(s, k), 0, st)
      requires Joint(s, k, st, a, t)
      modifies this, counter
      ensures shared == counter || fresh(shared)
      ensures Tied(left, shared, t)
    {
      var n := |outbox|;
      ghost var before := outbox;
      waiting[k].PutAnswer(ToFollowUp, st);
      assert Handed(before, a.waiting);
      if n < |outbox| {
        left, shared := outbox[n..], outbox[n].counter;
        assert shared in Counters(n);
      } else {
        left, shared := waiting[..k] + waiting[k + 1..], counter;
        assert outbox == before;
      }
    }

    /** The answer for `waiting[k]` arrives: the objects go the step of the protocol
        together.  `init` is the batch the exchange began with. */
    method Deliver(waiting: seq<Receiver>, counter: Counter, k: nat, st: Status,
                   ghost init: seq<Delegate>, ghost s: Issued)
      returns (left: seq<Receiver>, shared: Counter)
      requires Tied(waiting, counter, s) && Sound(init, s) && k < |waiting|
      modifies this, counter
      ensures shared == counter || fresh(shared)
      ensures var s' := Delegates.PutAnswer(ToFollowUp, s, k, st); Sound(init, s') && Tied(left, shared, s')
    {
      AnswerIsSound(init, s, k, st);
      AnswerAlone(s, k, st);
      ghost var a := Delegates.PutAnswer(ToFollowUp, Alone(s, k), 0, st);
      left, shared := Receive(waiting, counter, k, st, s, a, Delegates.PutAnswer(ToFollowUp, s, k, st));
    }

    /** After the first batch was issued every receiver waits. */
    lemma AllWait(counter: Counter, s: Issued)
      requires Handed([], s.waiting) && Share(0, counter)
      requires counter.value == s.counter && pending == s.pending && trace == s.trace
      ensures Tied(outbox, counter, s)
    {}

    /** A whole exchange: the batch `init` is issued, and the answers come in the order
        of `replies`. */
    method Serve(init: seq<Delegate>, replies: seq<Reply>) returns (waiting: seq<Receiver>, counter: Counter)
      requires init != [] && pending == [] && trace == [] && outbox == []
      modifies this
      ensures var s := Delegates.Exchange(Issue(ToFollowUp, init), replies);
              Sound(init, s) && Tied(waiting, counter, s)
    {
      counter := IssueDelegateRequests(ToFollowUp, init);
      waiting := outbox;
      IssueIsSound(init);
      ghost var s0 := Issue(ToFollowUp, init);
      ghost var s := s0;
      AllWait(counter, s);
      for i := 0 to |replies|
        invariant fresh(counter)
        invariant s == Delegates.Exchange(s0, replies[..i])
        invariant Sound(init, s) && Tied(waiting, counter, s)
      {
        var r := replies[i];
        ExchangeNext(s0, replies, i, s);
        if r.k < |waiting| {
          waiting, counter := Deliver(waiting, counter, r.k, r.st, init, s);
          s := Delegates.PutAnswer(ToFollowUp, s, r.k, r.st);
        }
      }
      assert replies[..|replies|] == replies;
    }
  }

  lemma ExchangeNext(s0: Issued, replies: seq<Reply>, i: nat, s: Issued)
    requires i < |replies| && s == Delegates.Exchange(s0, replies[..i])
    ensures Delegates.Exchange(s0, replies[..i + 1]) ==
            if replies[i].k < |s.waiting| then Delegates.PutAnswer(ToFollowUp, s, replies[i].k, replies[i].st) else s
  {
    assert replies[..i + 1][..i] == replies[..i];
  }

  /** The step from `s` to `t` is the one its receiver sees as ending in `a`: only the
      last answer of a batch brings new receivers. */
  ghost predicate Joint(s: Issued, k: nat, st: Status, a: Issued, t: Issued)
    requires k < |s.waiting|
  {
    && t.trace == a.trace && t.pending == a.pending && t.counter == a.counter
    && if a.waiting == [] then
         && t.waiting == s.waiting[..k] + s.waiting[k + 1..]
         && t.counter == if s.counter <= 0 then s.counter
                         else if Success(st) && s.waiting[k].accepted then s.counter - 1 else 0
       else t.waiting == a.waiting && s.counter == 1 && Success(st) && s.waiting[k].accepted
  }

  function Alone(s: Issued, k: nat): Issued
    requires k < |s.waiting|
  {
    Issued(s.counter, [s.waiting[k]], s.pending, s.trace)
  }

  lemma DecrementedAlone(s: Issued, waiting: seq<Delegate>)
    requires s.counter == 0 ==> s.waiting == waiting == []
    ensures var t, a := Decremented(ToFollowUp, s), Decremented(ToFollowUp, s.(waiting := waiting));
            t.trace == a.trace && t.pending == a.pending && t.counter == a.counter
            && if s.counter == 0 then t.waiting == a.waiting && (t.waiting == [] ==> t.counter == 0)
               else t == s && a == s.(waiting := waiting)
  {
    if s.counter == 0 && s.pending != [] {
      IssueIsSound(s.pending);
    }
  }

  /** What the receiver of `waiting[k]` does alone with its counter is what the step of
      the whole exchange does. */
  lemma AnswerAlone(s: Issued, k: nat, st: Status)
    requires k < |s.waiting| && (s.counter > 0 ==> s.counter == |s.waiting|)
    ensures Joint(s, k, st, Delegates.PutAnswer(ToFollowUp, Alone(s, k), 0, st),
                  Delegates.PutAnswer(ToFollowUp, s, k, st))
  {
    var d, rest, w := s.waiting[k], s.waiting[..k] + s.waiting[k + 1..], [s.waiting[k]];
    assert w[..0] + w[1..] == [];
    if s.counter > 0 && Success(st) && d.accepted {
      DecrementedAlone(Issued(s.counter - 1, rest, s.pending + d.followUps, s.trace + [Put(d)]), []);
    }
  }
}
