/**
 * The server coordinator and the front-end mock agree on the queue: for a
 * user who holds no unread result, both make the same queue transition and
 * both match the same partner.
 */
module Versions {
  import opened Types
  import Backend
  import Mock

  lemma FindPartnerAgreesWithMock(s: Backend.State, user: UserName,
                                  createMeet: (UserName, UserName) -> Backend.LinkOutcome, randomSuffix: string)
    requires user != [] && user !in s.pending
    ensures var r := Backend.FindPartner(s, user, createMeet);
      var m := Mock.FindPartnerAPI(s.queue, user, randomSuffix);
      && r.next.queue == m.queue
      && (r.outcome.NoPartner? <==> m.partner.None?)
      && (r.outcome.Partner? ==> r.outcome.info.partnerName == m.partner.value.partnerName)
  {
  }

  lemma CancelAgreesWithMock(s: Backend.State, user: UserName)
    ensures Backend.CancelUserWait(s, user).queue == Mock.CancelWaitAPI(s.queue, user)
  {
  }
}
