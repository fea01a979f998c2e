/**
 * The server-side pairing coordinator: a FIFO waiting queue plus a map of
 * match results that have been produced but not yet read by their owner.
 * Every operation is modelled as one atomic transition from one `State` to
 * the next. `findPartner` in fact pauses at the calendar call, where other
 * requests can run; README.md lists that under "Left out".
 */
module Backend {
  import opened Types
  import Queues

  /** `waitingQueue` and `completedPairs`. */
  datatype State = State(queue: seq<UserName>, pending: map<UserName, PairedInfo>)

  /** The state the server starts with. */
  const Initial: State := State([], map[])

  /** What the calendar service gives back for one pair: a meeting link, or a thrown error. */
  datatype LinkOutcome = Link(url: string) | LinkFailed

  /**
   * What `findPartner` hands back: `null` (queued, or already queued/holding
   * a result), the requester's `PairedInfo`, or a rejected promise because the
   * link could not be created.
   */
  datatype FindOutcome = NoPartner | Partner(info: PairedInfo) | LinkError

  datatype FindStep = FindStep(next: State, outcome: FindOutcome)

  /** The `status` field of `checkUserStatus`'s reply, with `pairedInfo` when PAIRED. */
  datatype StatusReply = Paired(pairedInfo: PairedInfo) | Waiting | Idle

  datatype StatusStep = StatusStep(next: State, reply: StatusReply)

  /** The guard against rapid repeated clicks: already queued, or a result is waiting. */
  predicate IsKnown(s: State, user: UserName)
  {
    user in s.queue || user in s.pending
  }

  /**
   * The state invariant: no name is queued twice, nobody is both queued and
   * holding a result, and nobody is told they were paired with themselves.
   */
  predicate Valid(s: State)
  {
    && Queues.NoDuplicates(s.queue)
    && (forall u :: u in s.queue ==> u !in s.pending)
    && (forall u :: u in s.pending ==> s.pending[u].partnerName != u)
  }

  /**
   * `findPartner`. `createMeet` is the calendar service, called with the
   * requester and the dequeued partner. When it fails the partner has
   * already been dequeued and is not put back.
   */
  function FindPartner(s: State, user: UserName, createMeet: (UserName, UserName) -> LinkOutcome): (r: FindStep)
    requires user != []
    // A known user is turned away and nothing changes.
    ensures IsKnown(s, user) ==> r.next == s && r.outcome == NoPartner
    // With nobody waiting, the user joins at the tail and the results stay as they were.
    ensures !IsKnown(s, user) && |s.queue| == 0 ==>
      r.outcome == NoPartner && r.next.queue == s.queue + [user] && r.next.pending == s.pending
    // Otherwise the head, and only the head, leaves the queue.
    ensures !IsKnown(s, user) && |s.queue| > 0 ==> r.next.queue == s.queue[1..] && !r.outcome.NoPartner?
    // A match names the old head as partner and is never a self-match.
    ensures r.outcome.Partner? ==>
      |s.queue| > 0 && r.outcome.info.partnerName == s.queue[0] && r.outcome.info.partnerName != user
      && createMeet(user, s.queue[0]) == Link(r.outcome.info.meetLink)
    // Both sides get a result with the same link and each other's names; nobody else's result moves.
    ensures r.outcome.Partner? ==>
      && r.next.pending.Keys == s.pending.Keys + {user, s.queue[0]}
      && r.next.pending[user] == r.outcome.info
      && r.next.pending[s.queue[0]] == PairedInfo(user, r.outcome.info.meetLink)
    ensures forall v :: v in s.pending && v != user && (|s.queue| == 0 || v != s.queue[0]) ==>
      v in r.next.pending && r.next.pending[v] == s.pending[v]
    // A failed link leaves the results alone; the dequeued partner is dropped.
    ensures r.outcome == LinkError ==> r.next.pending == s.pending
    ensures r.outcome == LinkError <==> !IsKnown(s, user) && |s.queue| > 0 && createMeet(user, s.queue[0]).LinkFailed?
    ensures Valid(s) ==> Valid(r.next)
  {
    if IsKnown(s, user) then
      FindStep(s, NoPartner)
    else if |s.queue| > 0 then
      var partner := s.queue[0];
      var rest := s.queue[1..];
      match createMeet(user, partner)
      case LinkFailed =>
        FindStep(State(rest, s.pending), LinkError)
      case Link(meetLink) =>
        var forUser := PairedInfo(partner, meetLink);
        var forPartner := PairedInfo(user, meetLink);
        FindStep(State(rest, s.pending[user := forUser][partner := forPartner]), Partner(forUser))
    else
      FindStep(State(s.queue + [user], s.pending), NoPartner)
  }

  /** `checkUserStatus`: a consuming read of the user's result, else WAITING or IDLE. */
  function CheckUserStatus(s: State, user: UserName): (r: StatusStep)
    // A waiting result is delivered and removed; nothing else changes.
    ensures user in s.pending ==>
      r.reply == Paired(s.pending[user]) && r.next.queue == s.queue && r.next.pending == s.pending - {user}
    // Without a result the state is untouched and the reply reflects queue membership.
    ensures user !in s.pending ==> r.next == s && !r.reply.Paired?
    ensures user !in s.pending ==> (r.reply == Waiting <==> user in s.queue)
    ensures user !in s.pending ==> (r.reply == Idle <==> user !in s.queue)
    // After the read the user holds no result.
    ensures user !in r.next.pending
    ensures Valid(s) ==> Valid(r.next)
  {
    if user in s.pending then
      StatusStep(State(s.queue, s.pending - {user}), Paired(s.pending[user]))
    else if user in s.queue then
      StatusStep(s, Waiting)
    else
      StatusStep(s, Idle)
  }

  /** `cancelUserWait`: filters the user out of the queue; results are not retracted. */
  function CancelUserWait(s: State, user: UserName): (r: State)
    ensures r.pending == s.pending
    ensures r.queue == Queues.RemoveAll(s.queue, user)
    ensures forall v :: v in r.queue <==> v in s.queue && v != user
    ensures Valid(s) ==> Valid(r)
  {
    Queues.RemoveAllNoDuplicates(s.queue, user);
    State(Queues.RemoveAll(s.queue, user), s.pending)
  }
}
