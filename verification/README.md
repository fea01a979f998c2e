# Pairing coordinator, modelled in Dafny

The system pairs anonymous users who ask for a conversation partner and gives each pair a meeting link. At its core is an in-memory FIFO matchmaker over free-text user names. It exists in two versions, and this project models both as pure state transitions:

- **Server coordinator** (`backend/src/services/pairingService.ts`). Its state is the waiting queue plus a map of match results that have been produced but not yet read.
  - `findPartner` turns away a user who is already queued or holds an unread result.
  - Otherwise, if someone is waiting, it dequeues the head, asks the calendar service for a link, and stores a result for both sides. If nobody is waiting, it enqueues the caller.
  - `checkUserStatus` is a consuming read of the caller's result. If there is none, it reports WAITING or IDLE.
  - `cancelUserWait` filters the caller out of the queue.
- **Front-end mock** (`services/pairingService.ts`). It follows the same queue discipline but has no results map: `findPartnerAPI` and `cancelWaitAPI`.

Files:

- `types.dfy` (`Types`): user names, `PairedInfo`, `Option`.
- `queues.dfy` (`Queues`): the duplicate-free predicate and `RemoveAll`, the queue's `filter`.
- `backend.dfy` (`Backend`): the server `State` and its three operations.
- `backend_properties.dfy` (`BackendProperties`): request sequences, invariants, delivery, link failure, cancellation.
- `mock.dfy` (`Mock`): the front-end mock and its call sequences.
- `versions.dfy` (`Versions`): the two versions make the same queue transitions.

External effects become parameters:

- The calendar call `createEventWithMeet` is a function parameter `createMeet(requester, partner)` that returns either a link or a failure. Its failure stands for the rejected promise.
- The mock's `Math.random` text is a `randomSuffix` parameter appended to the constant link prefix.

Where the code's behaviour is surprising, the model follows it:

- **The requester gets a stored copy too.** The server stores a result for the requester as well as for the partner (line 34). So the requester receives the match in the reply and again on its next poll. While that copy is unread, the requester's further searches are turned away (`RequesterResultDeliveredAgain`).
- **A failed link loses the partner.** When link creation fails, the partner has already been dequeued and is not put back. The failure is reported to the requester, and the partner ends up IDLE (`LinkFailureDropsPartner`). Putting the partner back in the queue after a failed link is not modelled, because the code does not do it.
- **At most one user waits.** A user is only ever enqueued when the queue is empty. So from the initial state at most one user is waiting, in both versions (`RunKeepsAtMostOneWaiter`, `RunCallsAtMostOneWaiter`). The FIFO properties are nevertheless proved for queues of any length.

## Model

| member | source | states |
|---|---|---|
| Queues.RemoveAll | backend/src/services/pairingService.ts:71 | filtering keeps exactly the names other than the cancelled one, with every other multiplicity unchanged, and shrinks the queue iff the name was present |
| Queues.RemoveAllConcat | backend/src/services/pairingService.ts:71 | filtering distributes over concatenation, so survivors keep their relative order |
| Queues.RemoveAllAbsent | backend/src/services/pairingService.ts:71 | filtering out an absent name returns the queue unchanged |
| Queues.RemoveAllIdempotent | backend/src/services/pairingService.ts:71 | filtering the same name twice equals filtering it once |
| Queues.RemoveAllNoDuplicates | backend/src/services/pairingService.ts:71 | filtering a duplicate-free queue leaves it duplicate-free |
| Queues.RemoveAllSplice | backend/src/services/pairingService.ts:71 | in a duplicate-free queue, filtering removes the single occurrence and joins the parts before and after it |
| Backend.FindPartner | backend/src/services/pairingService.ts:16-45 | a queued or result-holding user gets null and nothing changes; with an empty queue the user is appended and results are untouched; otherwise exactly the head leaves; a match names the head, never the requester, stores results for both sides with the same link and swapped names, and leaves every other result alone; a link failure leaves results alone and loses the head; the state invariant is preserved |
| Backend.CheckUserStatus | backend/src/services/pairingService.ts:52-64 | a held result is returned as PAIRED and only that key is removed; without one the state is unchanged and the reply is WAITING iff the user is queued, IDLE otherwise; the invariant is preserved |
| Backend.CancelUserWait | backend/src/services/pairingService.ts:70-73 | the queue keeps exactly the other users, the results map is untouched, and the invariant is preserved |
| BackendProperties.RunPreservesValid | backend/src/services/pairingService.ts:16-73 | any sequence of the three operations keeps the queue duplicate-free, nobody both queued and holding a result, and no self-match |
| BackendProperties.ReachableIsValid | backend/src/services/pairingService.ts:6-7 | every state reachable from the empty queue and empty map satisfies the invariant |
| BackendProperties.RunKeepsAtMostOneWaiter | backend/src/services/pairingService.ts:39-43 | since users are enqueued only when nobody waits, the queue never holds more than one user |
| BackendProperties.ArrivalsMatchedInQueueOrder | backend/src/services/pairingService.ts:22-38 | distinct new requesters are matched with the waiters front to back, and the unmatched waiters remain in order |
| BackendProperties.MatchDeliveredToBoth | backend/src/services/pairingService.ts:28-35 | after a match the requester gets the head and the link; the partner's first poll gets the requester and the same link, its second poll IDLE; the requester's result survives the partner's read |
| BackendProperties.RequesterResultDeliveredAgain | backend/src/services/pairingService.ts:34 | a requester that was matched is turned away on its next search, and its next poll delivers the same match again |
| BackendProperties.LinkFailureDropsPartner | backend/src/services/pairingService.ts:22-28 | when the link cannot be created, the queue loses its head, and both the partner and the requester poll as IDLE |
| BackendProperties.SecondPollNotPaired | backend/src/services/pairingService.ts:53-63 | a poll immediately after a poll never reports PAIRED, and reports WAITING iff the user is queued |
| BackendProperties.CancelIdempotent | backend/src/services/pairingService.ts:70-72 | cancelling twice equals cancelling once |
| BackendProperties.CancelAbsentIsNoOp | backend/src/services/pairingService.ts:70-72 | cancelling a user who is not queued changes nothing |
| BackendProperties.CancelSplicesOut | backend/src/services/pairingService.ts:71 | cancelling a waiting user removes its single entry and keeps everyone else in arrival order |
| BackendProperties.CancelKeepsPendingResult | backend/src/services/pairingService.ts:70-73 | cancel does not retract an already produced result: the next poll still returns it |
| BackendProperties.CancelThenNotWaiting | backend/src/services/pairingService.ts:59-63 | after a cancel a poll never reports WAITING |
| BackendProperties.AliceAndBobScenario | backend/src/services/pairingService.ts:16-64 | Alice waits, Bob is paired with Alice at once, Alice's poll returns Bob with the same link, and her next poll is IDLE |
| Mock.FindPartnerAPI | services/pairingService.ts:20-53 | a queued user resolves null with the queue unchanged; with an empty queue the user is appended; otherwise exactly the head leaves and is returned with a link carrying the mock prefix; the partner is never the caller; afterwards the caller is matched iff it is not queued; no duplicates are introduced |
| Mock.CancelWaitAPI | services/pairingService.ts:59-62 | the queue keeps exactly the other users and stays duplicate-free |
| Mock.RunCallsNoDuplicates | services/pairingService.ts:20-62 | no sequence of find and cancel calls ever queues a name twice |
| Mock.RunCallsAtMostOneWaiter | services/pairingService.ts:45-49 | starting from at most one waiter, the mock queue never holds more than one user |
| Mock.CancelWaitIdempotent | services/pairingService.ts:59-60 | cancelling twice equals cancelling once, and cancelling an absent user is a no-op |
| Mock.CancelWaitSplicesOut | services/pairingService.ts:60 | cancelling a waiting user removes its single entry and keeps the others in order |
| Versions.FindPartnerAgreesWithMock | services/pairingService.ts:26-49 | for a user with no unread result, the server and the mock make the same queue transition and report the same partner |
| Versions.CancelAgreesWithMock | services/pairingService.ts:59-60 | server cancel and mock cancel leave the same queue |

## Left out

- HTTP transport (`backend/src/server.ts`, `frontend/src/services/api.ts`) is left out: routing, JSON, status codes. Only the server's refusal of an empty name survives, as the `user != []` precondition of `Backend.FindPartner`.
- Backend.FindPartner: the server also rejects names made only of whitespace (`trim()`). The model requires only a non-empty name, so it also admits blank names, which is a broader precondition.
- Calendar link creation (`createEventWithMeet`) is not part of this model. It is an abstract function parameter.
- Mock.FindPartnerAPI: the random suffix is not constrained to the up to seven base-36 characters that `Math.random().toString(36).substring(2, 9)` yields (fewer when the digits run out early).
- Asynchrony is left out: the `await` at backend line 28, the mock's `setTimeout` delay, and interleavings of concurrent requests. Each operation is modelled as atomic and run to completion, as on a single-threaded event loop with no request overlapping the link call.
- Logging (`console.log`) has no effect on state and is omitted.
- The React UI and its polling timer are left out. So are the SEARCHING and ERROR values of the status enum in `types.ts`, which only the client uses.
