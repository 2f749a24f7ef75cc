/** What the answers of other servers lead to, on the status of the answer
    (src/webRequestDelegateContext.cpp). */
module DelegateOutcomes {
  import opened Delegates

  /** An answer that meets an open batch: any but an accepted one with a status of the
      2xx range closes it with the one response for its kind; an accepted one is put. */
  lemma AnswerOutcome(reset: Reset, s: Issued, k: nat, st: Status)
    requires k < |s.waiting| && s.counter > 0
    ensures var t, d, good := PutAnswer(reset, s, k, st), s.waiting[k], st.ok && 200 <= st.httpStatus <= 299;
            && (!good ==> t.counter == 0 && t.trace == s.trace + [Rejected(d)] && t.pending == s.pending)
            && (good && !d.accepted ==> t.counter == 0 && t.trace == s.trace + [Refused(d)] && t.pending == s.pending)
            && (good && d.accepted ==> s.trace + [Put(d)] <= t.trace)
  {
    var d, rest := s.waiting[k], s.waiting[..k] + s.waiting[k + 1..];
    PutFirst(reset, Issued(s.counter - 1, rest, s.pending + d.followUps, s.trace + [Put(d)]));
  }

  lemma PutFirst(reset: Reset, s: Issued)
    ensures s.trace <= Decremented(reset, s).trace
  {
    assert s.trace + [Asked, Completed] == s.trace + ([Asked, Completed]);
  }

  // ------------------------------------------------------------------
  // What the events of an exchange say
  // ------------------------------------------------------------------

  /** The event tells what the environment did with its delegate. */
  predicate Tells(e: Event) {
    match e
    case Sent(d) => d.hasUrl && d.sent
    case SendFailed(d) => d.hasUrl && !d.sent
    case Put(d) => d.accepted
    case Refused(d) => !d.accepted
    case Rejected(d) => d.hasUrl && d.sent
    case _ => true
  }

  ghost predicate AllTell(t: seq<Event>) {
    forall i :: 0 <= i < |t| ==> Tells(t[i])
  }

  /** Who waits was sent a request. */
  ghost predicate AllSent(ds: seq<Delegate>) {
    forall i :: 0 <= i < |ds| ==> ds[i].hasUrl && ds[i].sent
  }

  ghost predicate NoneRejected(t: seq<Event>) {
    forall i :: 0 <= i < |t| ==> !t[i].Rejected?
  }

  lemma {:induction false} RemoteSent(ds: seq<Delegate>)
    requires forall i :: 0 <= i < |ds| ==> !Fails(ds[i])
    ensures AllSent(Remote(ds))
  {
    if ds != [] {
      RemoteSent(ds[1..]);
      var first := if ds[0].hasUrl then [ds[0]] else [];
      assert Remote(ds) == first + Remote(ds[1..]);
    }
  }

  lemma HandledTell(t: seq<Event>, ds: seq<Delegate>)
    requires AllTell(t)
    ensures AllTell(t + HandleAll(ds))
    ensures NoneRejected(t) ==> NoneRejected(t + HandleAll(ds))
  {
    forall i | 0 <= i < |ds| ensures Tells(HandleAll(ds)[i]) && !HandleAll(ds)[i].Rejected? {
      assert HandleAll(ds)[i] == Handle(ds[i]);
    }
  }

  ghost predicate Telling(t: seq<Event>, s: Issued) {
    AllTell(s.trace) && AllSent(s.waiting) && (NoneRejected(t) ==> NoneRejected(s.trace))
  }

  lemma FailedTells(ds: seq<Delegate>, t: seq<Event>)
    requires AllTell(t) && FirstFailure(ds) < |ds|
    ensures Telling(t, Chain(ds, t))
  {
    var f := FirstFailure(ds);
    HandledTell(t, ds[..f + 1]);
    RemoteSent(ds[..f]);
    assert Chain(ds, t) == Issued(0, Remote(ds[..f]), FollowUps(ds[..f]), t + HandleAll(ds[..f + 1]));
  }

  lemma AskedTells(t: seq<Event>)
    requires AllTell(t)
    ensures AllTell(t + [Asked]) && (NoneRejected(t) ==> NoneRejected(t + [Asked]))
    ensures AllTell(t + [Asked, Completed]) && (NoneRejected(t) ==> NoneRejected(t + [Asked, Completed]))
  {}

  lemma HandledTells(ds: seq<Delegate>, t: seq<Event>)
    requires AllTell(t) && FirstFailure(ds) == |ds| && (Remote(ds) != [] || FollowUps(ds) == [])
    ensures Telling(t, Chain(ds, t))
  {
    HandledTell(t, ds);
    RemoteSent(ds);
    AskedTells(t + HandleAll(ds));
  }

  lemma {:induction false} ChainTells(ds: seq<Delegate>, t: seq<Event>)
    requires AllTell(t)
    ensures Telling(t, Chain(ds, t))
    decreases Size(ds)
  {
    if FirstFailure(ds) < |ds| {
      FailedTells(ds, t);
    } else if Remote(ds) != [] || FollowUps(ds) == [] {
      HandledTells(ds, t);
    } else {
      HandledTell(t, ds);
      AskedTells(t + HandleAll(ds));
      FollowUpsShrink(ds);
      ChainTells(FollowUps(ds), t + HandleAll(ds) + [Asked]);
      assert Chain(ds, t) == Chain(FollowUps(ds), t + HandleAll(ds) + [Asked]);
    }
  }

  lemma IssueTells(init: seq<Delegate>)
    requires init != []
    ensures var s := Issue(ToFollowUp, init); AllTell(s.trace) && AllSent(s.waiting) && NoneRejected(s.trace)
  {
    IssueRefinesChain(init, []);
    ChainTells(init, []);
  }

  lemma DecrementedTells(s: Issued)
    requires AllTell(s.trace) && AllSent(s.waiting)
    ensures var t := Decremented(ToFollowUp, s); AllTell(t.trace) && AllSent(t.waiting)
    ensures NoneRejected(s.trace) ==> NoneRejected(Decremented(ToFollowUp, s).trace)
  {
    if s.counter == 0 && s.pending != [] {
      IssueAfter(s.pending, s.trace + [Asked]);
      ChainTells(s.pending, s.trace + [Asked]);
    }
  }

  lemma AnswerTells(s: Issued, k: nat, st: Status)
    requires k < |s.waiting| && AllTell(s.trace) && AllSent(s.waiting)
    ensures var t := PutAnswer(ToFollowUp, s, k, st); AllTell(t.trace) && AllSent(t.waiting)
  {
    var d, rest := s.waiting[k], s.waiting[..k] + s.waiting[k + 1..];
    assert AllSent(rest);
    if s.counter > 0 && Success(st) && d.accepted {
      DecrementedTells(Issued(s.counter - 1, rest, s.pending + d.followUps, s.trace + [Put(d)]));
    }
  }

  /** Over every exchange: no event misreports what was done with its delegate. */
  lemma {:induction false} ExchangeTells(init: seq<Delegate>, replies: seq<Reply>)
    requires init != []
    ensures var s := Exchange(Issue(ToFollowUp, init), replies); AllTell(s.trace) && AllSent(s.waiting)
  {
    if replies == [] {
      IssueTells(init);
    } else {
      var before, r := replies[..|replies| - 1], replies[|replies| - 1];
      ExchangeTells(init, before);
      var s := Exchange(Issue(ToFollowUp, init), before);
      if r.k < |s.waiting| { AnswerTells(s, r.k, r.st); }
    }
  }

  // ------------------------------------------------------------------
  // Failed answers over whole exchanges
  // ------------------------------------------------------------------

  /** Reply `i` meets an open exchange with an error or a status outside 200 to 299. */
  predicate MeetsBadly(s0: Issued, replies: seq<Reply>, i: nat)
    requires i < |replies|
  {
    var s, r := Exchange(s0, replies[..i]), replies[i];
    s.counter > 0 && r.k < |s.waiting| && (!r.st.ok || r.st.httpStatus < 200 || r.st.httpStatus >= 300)
  }

  ghost predicate SomeBad(s0: Issued, replies: seq<Reply>) {
    exists i :: 0 <= i < |replies| && MeetsBadly(s0, replies, i)
  }

  lemma SomeBadLast(s0: Issued, replies: seq<Reply>)
    requires replies != []
    ensures var n := |replies| - 1;
            SomeBad(s0, replies) <==> SomeBad(s0, replies[..n]) || MeetsBadly(s0, replies, n)
  {
    var n := |replies| - 1;
    var before := replies[..n];
    forall i | 0 <= i < n ensures MeetsBadly(s0, replies, i) <==> MeetsBadly(s0, before, i) {
      assert replies[..i] == before[..i];
    }
    if SomeBad(s0, before) {
      var i :| 0 <= i < |before| && MeetsBadly(s0, before, i);
      assert MeetsBadly(s0, replies, i);
    }
  }

  ghost predicate EndsRejected(t: seq<Event>) {
    t != [] && t[|t| - 1].Rejected? && NoneRejected(t[..|t| - 1])
  }

  lemma {:induction false} QuietNoneRejected(t: seq<Event>)
    requires Responses(t) == 0
    ensures NoneRejected(t)
  {
    if t != [] { QuietNoneRejected(t[..|t| - 1]); }
  }

  /** One answer, to an open batch. */
  lemma AnswerRejects(s: Issued, k: nat, st: Status)
    requires k < |s.waiting| && s.counter > 0 && AllTell(s.trace) && AllSent(s.waiting) && NoneRejected(s.trace)
    ensures var t := PutAnswer(ToFollowUp, s, k, st).trace;
            if !st.ok || st.httpStatus < 200 || st.httpStatus >= 300 then EndsRejected(t) else NoneRejected(t)
  {
    var d, rest := s.waiting[k], s.waiting[..k] + s.waiting[k + 1..];
    var more := Issued(s.counter - 1, rest, s.pending + d.followUps, s.trace + [Put(d)]);
    AnswerOutcome(ToFollowUp, s, k, st);
    assert (s.trace + [Rejected(d)])[..|s.trace|] == s.trace;
    if st.ok && 200 <= st.httpStatus <= 299 && d.accepted {
      assert AllSent(rest);
      DecrementedTells(more);
    }
  }

  lemma {:induction false} RejectedSomewhere(init: seq<Delegate>, replies: seq<Reply>)
    requires init != []
    ensures var s0 := Issue(ToFollowUp, init);
            var t := Exchange(s0, replies).trace;
            if SomeBad(s0, replies) then EndsRejected(t) else NoneRejected(t)
  {
    var s0 := Issue(ToFollowUp, init);
    if replies == [] {
      IssueTells(init);
    } else {
      var before, r := replies[..|replies| - 1], replies[|replies| - 1];
      RejectedSomewhere(init, before);
      SomeBadLast(s0, replies);
      ExchangeTells(init, before);
      ExchangeIsSound(init, before);
      var s := Exchange(s0, before);
      if s.counter > 0 {
        QuietNoneRejected(s.trace);
        if r.k < |s.waiting| { AnswerRejects(s, r.k, r.st); }
      }
    }
  }

  /** An exchange ends with a rejection, and then without a final answer, if and only
      if a reply with an error or a status outside 200 to 299 met it open. */
  lemma RejectedExactly(init: seq<Delegate>, replies: seq<Reply>)
    requires init != []
    ensures var s0 := Issue(ToFollowUp, init);
            var s := Exchange(s0, replies);
            && (SomeBad(s0, replies) <==> s.trace != [] && s.trace[|s.trace| - 1].Rejected?)
            && (SomeBad(s0, replies) ==> Completed !in s.trace && s.counter == 0 && Responses(s.trace) == 1)
  {
    var s0 := Issue(ToFollowUp, init);
    var s := Exchange(s0, replies);
    RejectedSomewhere(init, replies);
    ExchangeIsSound(init, replies);
    if SomeBad(s0, replies) { RejectedLast(s.trace); }
  }

  lemma RejectedLast(t: seq<Event>)
    requires t != [] && t[|t| - 1].Rejected? && Responses(t) <= 1
    ensures Responses(t) == 1 && Completed !in t
  {
    QuietTrace(t[..|t| - 1]);
    assert t == t[..|t| - 1] + [t[|t| - 1]];
  }

  /** A failed answer to a batch of one: it is not put. */
  lemma FailedIsNotPut(d: Delegate)
    requires d.hasUrl && d.sent
    ensures Exchange(Issue(ToFollowUp, [d]), [Reply(0, Status(false, 404))]).trace == [Sent(d), Rejected(d)]
  {
    var replies := [Reply(0, Status(false, 404))];
    assert [d][1..] == [] && replies[..0] == [];
    IssueRefinesChain([d], []);
    assert Remote([d]) == [d] + Remote([]) && FirstFailure([d]) == 1;
    assert Issue(ToFollowUp, [d]).trace == [] + HandleAll([d]) == [Sent(d)];
  }
}
