/** The SwapRequest schema (server/src/models/SwapRequest.js): a proposal to
    exchange the requester's slot (mySlotId) for the recipient's (theirSlotId). */
module SwapRequestModel {
  import opened Wrappers
  import opened EventModel

  type RequestId = nat

  /** The closed status set of a request. */
  datatype RequestStatus = Pending | Accepted | Rejected

  /** The names the schema's enum accepts, in the order it lists them. */
  const RequestStatusNames: seq<string> := ["PENDING", "ACCEPTED", "REJECTED"]

  /** The status a request gets when none is supplied. */
  const DefaultRequestStatus: RequestStatus := Pending

  function RequestStatusName(s: RequestStatus): (name: string)
    ensures name in RequestStatusNames
  {
    match s
    case Pending => "PENDING"
    case Accepted => "ACCEPTED"
    case Rejected => "REJECTED"
  }

  /** A stored request. All four references are required; nothing checks that
      they name an existing user or event. The createdAt default is not modelled. */
  datatype SwapRequest = SwapRequest(requesterId: UserId, recipientId: UserId,
                                     mySlotId: EventId, theirSlotId: EventId,
                                     status: RequestStatus)

  /** Builds a request document; an absent status takes the schema default. */
  function NewSwapRequest(requesterId: UserId, recipientId: UserId, mySlotId: EventId,
                          theirSlotId: EventId, status: Option<RequestStatus>): (r: SwapRequest)
    ensures r.requesterId == requesterId && r.recipientId == recipientId
    ensures r.mySlotId == mySlotId && r.theirSlotId == theirSlotId
    ensures status.None? ==> r.status == Pending
    ensures status.Some? ==> r.status == status.value
  {
    SwapRequest(requesterId, recipientId, mySlotId, theirSlotId, status.GetOr(DefaultRequestStatus))
  }
}
