/**
 * The front-end mock of the coordinator: the same FIFO discipline over a
 * single waiting queue, without a results map. A match is only reported to
 * the requester; the dequeued partner is never told.
 */
module Mock {
  import opened Types
  import Queues

  /** Every mock link is this prefix followed by a few random base-36 characters. */
  const MockLinkPrefix: string := "https://meet.google.com/mock-"

  /** The queue after the call, and what the promise resolves to (`null` is `None`). */
  datatype FindStep = FindStep(queue: seq<UserName>, partner: Option<PairedInfo>)

  /**
   * `findPartnerAPI`, as run by its timer callback. `randomSuffix` is the
   * text drawn from `Math.random` for the mock link.
   */
  function FindPartnerAPI(queue: seq<UserName>, user: UserName, randomSuffix: string): (r: FindStep)
    // A user already waiting just keeps waiting.
    ensures user in queue ==> r == FindStep(queue, None)
    // With nobody waiting, the user joins at the tail.
    ensures user !in queue && |queue| == 0 ==> r.queue == queue + [user] && r.partner == None
    // Otherwise exactly the head leaves and becomes the partner.
    ensures user !in queue && |queue| > 0 ==> r.queue == queue[1..] && r.partner.Some?
    ensures r.partner.Some? ==>
      |queue| > 0 && r.partner.value == PairedInfo(queue[0], MockLinkPrefix + randomSuffix)
    ensures r.partner.Some? ==> r.partner.value.partnerName != user
    // Afterwards the user is either matched or waiting, never both.
    ensures r.partner.Some? <==> user !in r.queue
    ensures Queues.NoDuplicates(queue) ==> Queues.NoDuplicates(r.queue)
  {
    if user in queue then
      FindStep(queue, None)
    else if |queue| > 0 then
      var partner := queue[0];
      var mockMeetLink := MockLinkPrefix + randomSuffix;
      FindStep(queue[1..], Some(PairedInfo(partner, mockMeetLink)))
    else
      FindStep(queue + [user], None)
  }

  /** `cancelWaitAPI`: filters the user out of the queue. */
  function CancelWaitAPI(queue: seq<UserName>, user: UserName): (r: seq<UserName>)
    ensures forall v :: v in r <==> v in queue && v != user
    ensures |r| <= |queue|
    ensures Queues.NoDuplicates(queue) ==> Queues.NoDuplicates(r)
  {
    Queues.RemoveAllNoDuplicates(queue, user);
    Queues.RemoveAll(queue, user)
  }

  /** One call made by the mock front end. */
  datatype Call = FindCall(user: UserName, randomSuffix: string) | CancelCall(user: UserName)

  function ApplyCall(queue: seq<UserName>, call: Call): seq<UserName>
  {
    match call
    case FindCall(u, suffix) => FindPartnerAPI(queue, u, suffix).queue
    case CancelCall(u) => CancelWaitAPI(queue, u)
  }

  /** The queue after `calls`, each callback running to completion in turn. */
  function RunCalls(queue: seq<UserName>, calls: seq<Call>): seq<UserName>
    decreases |calls|
  {
    if |calls| == 0 then queue else RunCalls(ApplyCall(queue, calls[0]), calls[1..])
  }

  /** No sequence of calls ever puts a name in the queue twice. */
  lemma {:induction false} RunCallsNoDuplicates(queue: seq<UserName>, calls: seq<Call>)
    requires Queues.NoDuplicates(queue)
    ensures Queues.NoDuplicates(RunCalls(queue, calls))
    decreases |calls|
  {
    if |calls| > 0 {
      RunCallsNoDuplicates(ApplyCall(queue, calls[0]), calls[1..]);
    }
  }

  /** Starting empty, at most one user is ever waiting in the mock either. */
  lemma {:induction false} RunCallsAtMostOneWaiter(queue: seq<UserName>, calls: seq<Call>)
    requires |queue| <= 1
    ensures |RunCalls(queue, calls)| <= 1
    decreases |calls|
  {
    if |calls| > 0 {
      RunCallsAtMostOneWaiter(ApplyCall(queue, calls[0]), calls[1..]);
    }
  }

  /** Cancelling twice is cancelling once, and cancelling an absent user changes nothing. */
  lemma CancelWaitIdempotent(queue: seq<UserName>, user: UserName)
    ensures CancelWaitAPI(CancelWaitAPI(queue, user), user) == CancelWaitAPI(queue, user)
    ensures user !in queue ==> CancelWaitAPI(queue, user) == queue
  {
    Queues.RemoveAllIdempotent(queue, user);
    if user !in queue {
      Queues.RemoveAllAbsent(queue, user);
    }
  }

  /** Cancelling a waiting user splices out its single entry and keeps the order of the rest. */
  lemma CancelWaitSplicesOut(before: seq<UserName>, user: UserName, after: seq<UserName>)
    requires Queues.NoDuplicates(before + [user] + after)
    ensures CancelWaitAPI(before + [user] + after, user) == before + after
  {
    Queues.RemoveAllSplice(before, user, after);
  }
}
