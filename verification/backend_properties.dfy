/**
 * Properties of the server-side coordinator that relate several calls:
 * invariants over arbitrary request sequences, delivery of a match to each
 * side, the lost partner on link failure, and cancellation.
 */
module BackendProperties {
  import opened Types
  import Queues
  import opened Backend

  /** One call reaching the coordinator through the HTTP layer. */
  datatype Request =
    | Find(user: UserName, createMeet: (UserName, UserName) -> LinkOutcome)
    | Check(user: UserName)
    | Cancel(user: UserName)

  /** The HTTP layer only forwards non-empty names to `findPartner`. */
  predicate Admissible(reqs: seq<Request>)
  {
    forall i :: 0 <= i < |reqs| ==> reqs[i].Find? ==> reqs[i].user != []
  }

  function Apply(s: State, req: Request): State
    requires req.Find? ==> req.user != []
  {
    match req
    case Find(u, createMeet) => FindPartner(s, u, createMeet).next
    case Check(u) => CheckUserStatus(s, u).next
    case Cancel(u) => CancelUserWait(s, u)
  }

  /** The state after serving `reqs` one after another, each to completion. */
  function Run(s: State, reqs: seq<Request>): State
    requires Admissible(reqs)
    decreases |reqs|
  {
    if |reqs| == 0 then s else Run(Apply(s, reqs[0]), reqs[1..])
  }

  /** Every request sequence keeps the state invariant. */
  lemma {:induction false} RunPreservesValid(s: State, reqs: seq<Request>)
    requires Admissible(reqs)
    requires Valid(s)
    ensures Valid(Run(s, reqs))
    decreases |reqs|
  {
    if |reqs| > 0 {
      RunPreservesValid(Apply(s, reqs[0]), reqs[1..]);
    }
  }

  /** The server starts valid, so every reachable state is valid. */
  lemma ReachableIsValid(reqs: seq<Request>)
    requires Admissible(reqs)
    ensures Valid(Run(Initial, reqs))
  {
    RunPreservesValid(Initial, reqs);
  }

  /**
   * A user is only enqueued when the queue is empty, so starting from the
   * initial state at most one user is ever waiting.
   */
  lemma {:induction false} RunKeepsAtMostOneWaiter(s: State, reqs: seq<Request>)
    requires Admissible(reqs)
    requires |s.queue| <= 1
    ensures |Run(s, reqs).queue| <= 1
    decreases |reqs|
  {
    if |reqs| > 0 {
      var next := Apply(s, reqs[0]);
      RunKeepsAtMostOneWaiter(next, reqs[1..]);
    }
  }

  /** The outcomes of `arrivals` calling `findPartner` one after another, and the final state. */
  function ServeArrivals(s: State, arrivals: seq<UserName>, createMeet: (UserName, UserName) -> LinkOutcome): (State, seq<FindOutcome>)
    requires forall i :: 0 <= i < |arrivals| ==> arrivals[i] != []
    decreases |arrivals|
  {
    if |arrivals| == 0 then (s, [])
    else
      var r := FindPartner(s, arrivals[0], createMeet);
      var (final, outs) := ServeArrivals(r.next, arrivals[1..], createMeet);
      (final, [r.outcome] + outs)
  }

  /**
   * Matches resolve in arrival order: new, distinct requesters facing a
   * queue of waiters are matched with the waiters front to back, and the
   * unmatched waiters stay queued in order.
   */
  lemma {:induction false} ArrivalsMatchedInQueueOrder(s: State, arrivals: seq<UserName>, createMeet: (UserName, UserName) -> LinkOutcome)
    requires Queues.NoDuplicates(arrivals)
    requires forall i :: 0 <= i < |arrivals| ==> arrivals[i] != []
    requires forall a :: a in arrivals ==> a !in s.queue && a !in s.pending
    requires |arrivals| <= |s.queue|
    requires forall a, b :: createMeet(a, b).Link?
    ensures var (final, outs) := ServeArrivals(s, arrivals, createMeet);
      && |outs| == |arrivals|
      && final.queue == s.queue[|arrivals|..]
      && forall i :: 0 <= i < |outs| ==> outs[i].Partner? && outs[i].info.partnerName == s.queue[i]
    decreases |arrivals|
  {
    if |arrivals| > 0 {
      var r := FindPartner(s, arrivals[0], createMeet);
      Queues.TailNoDuplicates(arrivals);
      forall a | a in arrivals[1..] ensures a !in r.next.queue && a !in r.next.pending {
        assert a in arrivals;
      }
      ArrivalsMatchedInQueueOrder(r.next, arrivals[1..], createMeet);
      var (final, outs) := ServeArrivals(s, arrivals, createMeet);
      assert s.queue[1..][|arrivals| - 1..] == s.queue[|arrivals|..];
      forall i | 0 <= i < |outs| ensures outs[i].Partner? && outs[i].info.partnerName == s.queue[i] {
        if i > 0 {
          assert s.queue[1..][i - 1] == s.queue[i];
        }
      }
    }
  }

  /**
   * A completed match reaches each side through the reply or a poll. The
   * partner's first poll returns the match and the second finds nothing;
   * reading one side's result does not consume the other's.
   */
  lemma MatchDeliveredToBoth(s: State, user: UserName, createMeet: (UserName, UserName) -> LinkOutcome, link: string)
    requires Valid(s) && user != []
    requires !IsKnown(s, user) && |s.queue| > 0
    requires createMeet(user, s.queue[0]) == Link(link)
    ensures var p := s.queue[0];
      var r := FindPartner(s, user, createMeet);
      var c1 := CheckUserStatus(r.next, p);
      var c2 := CheckUserStatus(c1.next, p);
      && r.outcome == Partner(PairedInfo(p, link))
      && c1.reply == Paired(PairedInfo(user, link))
      && c2.reply == Idle
      && CheckUserStatus(c1.next, user).reply == Paired(PairedInfo(p, link))
  {
  }

  /**
   * The requester of a match holds a copy of its own result as well, so
   * after taking the match from the reply, its next search is turned away
   * and its next poll delivers the same, already used, match again.
   */
  lemma RequesterResultDeliveredAgain(s: State, user: UserName, createMeet: (UserName, UserName) -> LinkOutcome,
                                      createMeet2: (UserName, UserName) -> LinkOutcome)
    requires Valid(s) && user != []
    requires !IsKnown(s, user) && |s.queue| > 0
    requires createMeet(user, s.queue[0]).Link?
    ensures var r := FindPartner(s, user, createMeet);
      var again := FindPartner(r.next, user, createMeet2);
      && r.outcome.Partner?
      && again.outcome == NoPartner
      && CheckUserStatus(again.next, user).reply == Paired(r.outcome.info)
  {
  }

  /**
   * When the calendar service fails, the dequeued partner is neither waiting
   * nor holding a result: its polls report IDLE and it is not re-enqueued.
   */
  lemma LinkFailureDropsPartner(s: State, user: UserName, createMeet: (UserName, UserName) -> LinkOutcome)
    requires Valid(s) && user != []
    requires !IsKnown(s, user) && |s.queue| > 0
    requires createMeet(user, s.queue[0]) == LinkFailed
    ensures var r := FindPartner(s, user, createMeet);
      && r.outcome == LinkError
      && |r.next.queue| == |s.queue| - 1
      && CheckUserStatus(r.next, s.queue[0]).reply == Idle
      && CheckUserStatus(r.next, user).reply == Idle
  {
  }

  /**
   * The read is consuming: a second poll right after the first never reports
   * PAIRED, and reports WAITING iff the user is queued.
   */
  lemma SecondPollNotPaired(s: State, user: UserName)
    ensures var second := CheckUserStatus(CheckUserStatus(s, user).next, user).reply;
      && !second.Paired?
      && (second == Waiting <==> user in s.queue)
  {
  }

  /** Cancelling twice is cancelling once. */
  lemma CancelIdempotent(s: State, user: UserName)
    ensures CancelUserWait(CancelUserWait(s, user), user) == CancelUserWait(s, user)
  {
    Queues.RemoveAllIdempotent(s.queue, user);
  }

  /** Cancelling a user who is not waiting changes nothing. */
  lemma CancelAbsentIsNoOp(s: State, user: UserName)
    requires user !in s.queue
    ensures CancelUserWait(s, user) == s
  {
    Queues.RemoveAllAbsent(s.queue, user);
  }

  /**
   * In a valid state, cancelling removes just the one queue entry of the
   * user and keeps everybody else in arrival order.
   */
  lemma CancelSplicesOut(s: State, before: seq<UserName>, user: UserName, after: seq<UserName>)
    requires Valid(s) && s.queue == before + [user] + after
    ensures CancelUserWait(s, user).queue == before + after
  {
    Queues.RemoveAllSplice(before, user, after);
  }

  /**
   * A cancel racing a match does not retract the result: the user's next
   * poll still reports the match.
   */
  lemma CancelKeepsPendingResult(s: State, user: UserName)
    requires user in s.pending
    ensures CheckUserStatus(CancelUserWait(s, user), user).reply == Paired(s.pending[user])
  {
  }

  /** After a cancel, a poll never reports WAITING. */
  lemma CancelThenNotWaiting(s: State, user: UserName)
    ensures CheckUserStatus(CancelUserWait(s, user), user).reply != Waiting
  {
  }

  /**
   * The two-user walk-through: Alice waits, Bob arrives and is paired
   * at once, Alice's poll returns Bob with the same link, and her next poll
   * reports IDLE.
   */
  lemma AliceAndBobScenario(createMeet: (UserName, UserName) -> LinkOutcome, link: string)
    requires createMeet("Bob", "Alice") == Link(link)
    ensures var alice := FindPartner(Initial, "Alice", createMeet);
      var bob := FindPartner(alice.next, "Bob", createMeet);
      var poll1 := CheckUserStatus(bob.next, "Alice");
      var poll2 := CheckUserStatus(poll1.next, "Alice");
      && alice.outcome == NoPartner && alice.next.queue == ["Alice"]
      && bob.outcome == Partner(PairedInfo("Alice", link))
      && poll1.reply == Paired(PairedInfo("Bob", link))
      && poll2.reply == Idle
  {
  }
}
