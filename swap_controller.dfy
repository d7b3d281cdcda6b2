/** The slot-swap engine (server/src/controllers/swapController.js). Each action
    is a step on a snapshot of both collections, returning the new snapshot and
    the response; the two actions that write are also methods on the shared
    Db that read, update and save the documents one by one as the handlers do. */
module SwapController {
  import opened Wrappers
  import opened EventModel
  import opened SwapRequestModel
  import opened Database
  import opened Http

  const NotSwappable: string := "One or both slots are not swappable."
  const SelfSwap: string := "Cannot swap with your own slot."
  const InvalidRequest: string := "Invalid swap request."

  /** The TypeError raised when a referenced slot no longer exists: accepting
      reads its userId, rejecting assigns its status. */
  function MissingSlotMessage(accept: bool): string
  {
    if accept then "Cannot read properties of null (reading 'userId')"
    else "Cannot set properties of null (setting 'status')"
  }

  /** The body of a 201 from createSwapRequest. */
  datatype Created = Created(id: RequestId, request: SwapRequest)

  /** A request with its two slot references populated (None for a dangling one).
      The user references are populated from the users collection, which is not modelled. */
  datatype PopulatedRequest = PopulatedRequest(request: SwapRequest, mySlot: Option<Event>, theirSlot: Option<Event>)

  datatype Inbox = Inbox(incoming: map<RequestId, PopulatedRequest>, outgoing: map<RequestId, PopulatedRequest>)

  /** The body of a 200 from respondToSwapRequest: the message and the request,
      whose populated slots are the documents as they were read, before the decision. */
  datatype Resolution = Resolution(message: string, id: RequestId, request: SwapRequest,
                                   mySlot: Event, theirSlot: Event)

  // ---------------------------------------------------------------------------
  // Guards

  /** The caller's own slot, offered for swapping. */
  predicate Offerable(events: map<EventId, Event>, caller: UserId, id: EventId)
  {
    id in events && events[id].userId == caller && events[id].status == Swappable
  }

  /** Some user's slot that is up for swapping. */
  predicate Requestable(events: map<EventId, Event>, id: EventId)
  {
    id in events && events[id].status == Swappable
  }

  /** The caller may decide this request. */
  predicate Decidable(t: Tables, caller: UserId, id: RequestId)
  {
    id in t.requests && t.requests[id].recipientId == caller && t.requests[id].status == Pending
  }

  // ---------------------------------------------------------------------------
  // GET /api/swappable-slots

  function GetSwappableSlots(t: Tables, caller: UserId): (r: Response<map<EventId, Event>>)
    ensures r.Ok? && r.code == 200
    ensures forall id :: id in r.body <==> Requestable(t.events, id) && t.events[id].userId != caller
    ensures forall id :: id in r.body ==> id in t.events && r.body[id] == t.events[id]
  {
    Ok(200, map id | id in t.events && t.events[id].userId != caller && t.events[id].status == Swappable
                  :: t.events[id])
  }

  // ---------------------------------------------------------------------------
  // POST /api/swap-request

  /** Both guards of createSwapRequest pass: the caller offers a SWAPPABLE slot
      of their own for another user's SWAPPABLE slot. */
  predicate Admissible(t: Tables, caller: UserId, mySlotId: EventId, theirSlotId: EventId)
  {
    Offerable(t.events, caller, mySlotId) && Requestable(t.events, theirSlotId)
    && t.events[theirSlotId].userId != caller
  }

  /** `save()` accepts slot `id` as stored, if there is one. */
  predicate SavableAt(events: map<EventId, Event>, id: EventId)
  {
    id in events ==> Savable(events[id])
  }

  /** createSwapRequest with `newId` as the id the new request document gets.
      The request is inserted before the two slots are saved, and each save
      validates its slot: a failing save ends the handler with the writes made
      so far. */
  function Propose(t: Tables, caller: UserId, mySlotId: EventId, theirSlotId: EventId,
                   newId: RequestId): (out: (Tables, Response<Created>))
    ensures out.1 == Fail(400, NotSwappable)
            <==> !(Offerable(t.events, caller, mySlotId) && Requestable(t.events, theirSlotId))
    ensures out.1 == Fail(400, SelfSwap)
            <==> Offerable(t.events, caller, mySlotId) && Requestable(t.events, theirSlotId)
                 && t.events[theirSlotId].userId == caller
    ensures !Admissible(t, caller, mySlotId, theirSlotId) ==> out.0 == t
    ensures out.1.Ok? <==> Admissible(t, caller, mySlotId, theirSlotId)
                           && Savable(t.events[mySlotId]) && Savable(t.events[theirSlotId])
    ensures Admissible(t, caller, mySlotId, theirSlotId) ==>
              var request := SwapRequest(caller, t.events[theirSlotId].userId, mySlotId, theirSlotId, Pending);
              var requests := t.requests[newId := request];
              && out.0.requests == requests
              && (out.1.Ok? ==> out.1 == Ok(201, Created(newId, request)))
              && (!Savable(t.events[mySlotId]) ==>
                    out == (Tables(t.events, requests), ValidationFailure(SaveErrors(t.events[mySlotId]))))
              && (Savable(t.events[mySlotId]) && !Savable(t.events[theirSlotId]) ==>
                    out == (Tables(t.events[mySlotId := t.events[mySlotId].(status := SwapPending)], requests),
                            ValidationFailure(SaveErrors(t.events[theirSlotId]))))
    ensures out.1.Ok? ==>
              && out.0.events.Keys == t.events.Keys
              && forall id :: id in t.events ==>
                   out.0.events[id] == if id == mySlotId || id == theirSlotId
                                       then t.events[id].(status := SwapPending) else t.events[id]
  {
    var mySlot := FindEvent(t.events, mySlotId, Some(caller), Some(Swappable));
    var theirSlot := FindEvent(t.events, theirSlotId, None, Some(Swappable));
    if mySlot.None? || theirSlot.None? then (t, Fail(400, NotSwappable))
    else if theirSlot.value.userId == caller then (t, Fail(400, SelfSwap))
    else
      var request := NewSwapRequest(caller, theirSlot.value.userId, mySlotId, theirSlotId, Some(Pending));
      var requests := t.requests[newId := request];
      var mine := mySlot.value.(status := SwapPending);
      var theirs := theirSlot.value.(status := SwapPending);
      if !Savable(mine) then (Tables(t.events, requests), ValidationFailure(SaveErrors(mine)))
      else
        var events := t.events[mySlotId := mine];
        if !Savable(theirs) then (Tables(events, requests), ValidationFailure(SaveErrors(theirs)))
        else (Tables(events[theirSlotId := theirs], requests), Ok(201, Created(newId, request)))
  }

  method CreateSwapRequest(db: Db, caller: UserId, mySlotId: EventId, theirSlotId: EventId)
      returns (res: Response<Created>)
    requires db.Valid()
    modifies db
    ensures db.Valid()
    ensures (db.Snapshot(), res) == Propose(old(db.Snapshot()), caller, mySlotId, theirSlotId, old(db.nextRequestId))
    ensures old(SwapInvariant(db.Snapshot()) && SavableAt(db.events, mySlotId) && SavableAt(db.events, theirSlotId))
            ==> SwapInvariant(db.Snapshot())
  {
    ghost var t, newId := db.Snapshot(), db.nextRequestId;
    if SwapInvariant(t) && SavableAt(t.events, mySlotId) && SavableAt(t.events, theirSlotId) {
      ProposePreservesInvariant(t, caller, mySlotId, theirSlotId, newId);
    }
    var mySlot := FindEvent(db.events, mySlotId, Some(caller), Some(Swappable));
    var theirSlot := FindEvent(db.events, theirSlotId, None, Some(Swappable));
    if mySlot.None? || theirSlot.None? {
      return Fail(400, NotSwappable);
    }
    if theirSlot.value.userId == caller {
      return Fail(400, SelfSwap);
    }
    var request := NewSwapRequest(caller, theirSlot.value.userId, mySlotId, theirSlotId, Some(Pending));
    var id := db.InsertRequest(request);
    var mine := mySlot.value.(status := SwapPending);
    var theirs := theirSlot.value.(status := SwapPending);
    var errors := db.SaveEvent(mySlotId, mine);
    if errors != [] {
      return ValidationFailure(errors);
    }
    errors := db.SaveEvent(theirSlotId, theirs);
    if errors != [] {
      return ValidationFailure(errors);
    }
    res := Ok(201, Created(id, request));
  }

  /** createSwapRequest as one transaction: a failing save rolls back every
      write of the handler. */
  function ProposeAllOrNothing(t: Tables, caller: UserId, mySlotId: EventId, theirSlotId: EventId,
                               newId: RequestId): (out: (Tables, Response<Created>))
    ensures out.1 == Propose(t, caller, mySlotId, theirSlotId, newId).1
    ensures out.1.Fail? ==> out.0 == t
    ensures out.1.Ok? ==> out.0 == Propose(t, caller, mySlotId, theirSlotId, newId).0
  {
    var (t', r) := Propose(t, caller, mySlotId, theirSlotId, newId);
    (if r.Ok? then t' else t, r)
  }

  // ---------------------------------------------------------------------------
  // GET /api/swap-requests

  function Populate(t: Tables, r: SwapRequest): PopulatedRequest
  {
    PopulatedRequest(r, Lookup(t.events, r.mySlotId), Lookup(t.events, r.theirSlotId))
  }

  function GetSwapRequests(t: Tables, caller: UserId): (r: Response<Inbox>)
    ensures r.Ok? && r.code == 200
    ensures forall id :: id in r.body.incoming <==> id in t.requests && t.requests[id].recipientId == caller
    ensures forall id :: id in r.body.outgoing <==> id in t.requests && t.requests[id].requesterId == caller
    ensures forall id :: id in r.body.incoming ==>
              r.body.incoming[id] == PopulatedRequest(t.requests[id], Lookup(t.events, t.requests[id].mySlotId),
                                                      Lookup(t.events, t.requests[id].theirSlotId))
    ensures forall id :: id in r.body.outgoing ==>
              r.body.outgoing[id] == PopulatedRequest(t.requests[id], Lookup(t.events, t.requests[id].mySlotId),
                                                      Lookup(t.events, t.requests[id].theirSlotId))
  {
    var incoming := map id | id in t.requests && t.requests[id].recipientId == caller :: Populate(t, t.requests[id]);
    var outgoing := map id | id in t.requests && t.requests[id].requesterId == caller :: Populate(t, t.requests[id]);
    Ok(200, Inbox(incoming, outgoing))
  }

  // ---------------------------------------------------------------------------
  // POST /api/swap-response/:requestId

  /** Both slots of the request `requestId`, where it and they exist, are
      accepted by `save()`. */
  predicate DecisionSavable(t: Tables, requestId: RequestId)
  {
    requestId in t.requests ==>
      SavableAt(t.events, t.requests[requestId].mySlotId) && SavableAt(t.events, t.requests[requestId].theirSlotId)
  }

  /** respondToSwapRequest. `accept` is the truthiness of the body's `accept`,
      so a body without it rejects. The offered slot is saved first, then the
      requested one, then the request: a failing save ends the handler with the
      writes made so far. */
  function Respond(t: Tables, caller: UserId, requestId: RequestId, accept: bool): (out: (Tables, Response<Resolution>))
    ensures out.1 == Fail(400, InvalidRequest) <==> !Decidable(t, caller, requestId)
    ensures !Decidable(t, caller, requestId) ==> out.0 == t
    ensures Decidable(t, caller, requestId) ==>
              var (a, b) := (t.requests[requestId].mySlotId, t.requests[requestId].theirSlotId);
              && (a !in t.events || b !in t.events ==> out == (t, Fail(500, MissingSlotMessage(accept))))
              && (a in t.events && b in t.events && !Savable(t.events[a]) ==>
                    out == (t, ValidationFailure(SaveErrors(t.events[a]))))
              && (a in t.events && b in t.events && Savable(t.events[a]) && !Savable(t.events[b]) ==>
                    var o := if accept then t.events[a].(userId := t.events[b].userId, status := Busy)
                             else t.events[a].(status := Swappable);
                    out == (Tables(t.events[a := o], t.requests), ValidationFailure(SaveErrors(t.events[b]))))
    ensures out.1.Ok? <==> Decidable(t, caller, requestId)
                           && t.requests[requestId].mySlotId in t.events
                           && t.requests[requestId].theirSlotId in t.events
                           && Savable(t.events[t.requests[requestId].mySlotId])
                           && Savable(t.events[t.requests[requestId].theirSlotId])
    ensures out.1.Ok? ==>
              var r := t.requests[requestId];
              var (a, b) := (r.mySlotId, r.theirSlotId);
              && out.0.requests == t.requests[requestId := r.(status := if accept then Accepted else Rejected)]
              && out.1 == Ok(200, Resolution(if accept then "Swap accepted!" else "Swap rejected.", requestId,
                                             out.0.requests[requestId], t.events[a], t.events[b]))
              && out.0.events.Keys == t.events.Keys
              && (forall id :: id in t.events && id != a && id != b ==> out.0.events[id] == t.events[id])
              && (accept ==>
                    && out.0.events[b] == t.events[b].(userId := t.events[a].userId, status := Busy)
                    && (a != b ==> out.0.events[a] == t.events[a].(userId := t.events[b].userId, status := Busy)))
              && (!accept ==>
                    && out.0.events[a] == t.events[a].(status := Swappable)
                    && out.0.events[b] == t.events[b].(status := Swappable))
  {
    var found := Lookup(t.requests, requestId);
    if found.None? || found.value.recipientId != caller || found.value.status != Pending then
      (t, Fail(400, InvalidRequest))
    else
      var swapReq := found.value;
      var offered := Lookup(t.events, swapReq.mySlotId);
      var requested := Lookup(t.events, swapReq.theirSlotId);
      if offered.None? || requested.None? then (t, InternalFailure(MissingSlotMessage(accept)))
      else
        var (o, q, status) :=
          if accept then
            (offered.value.(userId := requested.value.userId, status := Busy),
             requested.value.(userId := offered.value.userId, status := Busy), Accepted)
          else
            (offered.value.(status := Swappable), requested.value.(status := Swappable), Rejected);
        var decided := swapReq.(status := status);
        if !Savable(o) then (t, ValidationFailure(SaveErrors(o)))
        else
          var events := t.events[swapReq.mySlotId := o];
          if !Savable(q) then (Tables(events, t.requests), ValidationFailure(SaveErrors(q)))
          else
            (Tables(events[swapReq.theirSlotId := q], t.requests[requestId := decided]),
             Ok(200, Resolution(if accept then "Swap accepted!" else "Swap rejected.", requestId, decided,
                                offered.value, requested.value)))
  }

  method RespondToSwapRequest(db: Db, caller: UserId, requestId: RequestId, accept: bool)
      returns (res: Response<Resolution>)
    requires db.Valid()
    modifies db
    ensures db.Valid()
    ensures (db.Snapshot(), res) == Respond(old(db.Snapshot()), caller, requestId, accept)
    ensures old(SwapInvariant(db.Snapshot()) && DecisionSavable(db.Snapshot(), requestId))
            ==> SwapInvariant(db.Snapshot())
  {
    ghost var t := db.Snapshot();
    if SwapInvariant(t) && DecisionSavable(t, requestId) {
      RespondPreservesInvariant(t, caller, requestId, accept);
    }
    var found := Lookup(db.requests, requestId);
    if found.None? || found.value.recipientId != caller || found.value.status != Pending {
      return Fail(400, InvalidRequest);
    }
    var swapReq := found.value;
    var offered := Lookup(db.events, swapReq.mySlotId);
    var requested := Lookup(db.events, swapReq.theirSlotId);
    if offered.None? || requested.None? {
      return InternalFailure(MissingSlotMessage(accept));
    }
    var offeredSlot, requestedSlot := offered.value, requested.value;
    if accept {
      var tempUserId := offeredSlot.userId;
      offeredSlot := offeredSlot.(userId := requestedSlot.userId);
      requestedSlot := requestedSlot.(userId := tempUserId);
      offeredSlot := offeredSlot.(status := Busy);
      requestedSlot := requestedSlot.(status := Busy);
      swapReq := swapReq.(status := Accepted);
    } else {
      offeredSlot := offeredSlot.(status := Swappable);
      requestedSlot := requestedSlot.(status := Swappable);
      swapReq := swapReq.(status := Rejected);
    }
    var errors := db.SaveEvent(swapReq.mySlotId, offeredSlot);
    if errors != [] {
      return ValidationFailure(errors);
    }
    errors := db.SaveEvent(swapReq.theirSlotId, requestedSlot);
    if errors != [] {
      return ValidationFailure(errors);
    }
    db.SaveRequest(requestId, swapReq);
    res := Ok(200, Resolution(if accept then "Swap accepted!" else "Swap rejected.", requestId, swapReq,
                              offered.value, requested.value));
  }

  /** respondToSwapRequest as one transaction: a failing save rolls back every
      write of the handler. */
  function RespondAllOrNothing(t: Tables, caller: UserId, requestId: RequestId, accept: bool)
      : (out: (Tables, Response<Resolution>))
    ensures out.1 == Respond(t, caller, requestId, accept).1
    ensures out.1.Fail? ==> out.0 == t
    ensures out.1.Ok? ==> out.0 == Respond(t, caller, requestId, accept).0
  {
    var (t', r) := Respond(t, caller, requestId, accept);
    (if r.Ok? then t' else t, r)
  }

  // ---------------------------------------------------------------------------
  // The engine's invariant

  /** Request `r` refers to slot `id`. */
  predicate RefersTo(r: SwapRequest, id: EventId)
  {
    id == r.mySlotId || id == r.theirSlotId
  }

  /** The two requests share no slot. */
  predicate Disjoint(r1: SwapRequest, r2: SwapRequest)
  {
    !RefersTo(r2, r1.mySlotId) && !RefersTo(r2, r1.theirSlotId)
  }

  /** The two slots of a request exist, are SWAP_PENDING and belong to its two parties. */
  ghost predicate Reserves(t: Tables, r: SwapRequest)
  {
    && r.mySlotId in t.events && r.theirSlotId in t.events
    && t.events[r.mySlotId].status == SwapPending && t.events[r.theirSlotId].status == SwapPending
    && t.events[r.mySlotId].userId == r.requesterId && t.events[r.theirSlotId].userId == r.recipientId
  }

  /** Request `rid` is pending and refers to slot `id`. */
  ghost predicate Claims(t: Tables, rid: RequestId, id: EventId)
  {
    rid in t.requests && t.requests[rid].status == Pending && RefersTo(t.requests[rid], id)
  }

  /** Every request is between two different users. */
  ghost predicate DistinctParties(t: Tables)
  {
    forall rid :: rid in t.requests ==> t.requests[rid].requesterId != t.requests[rid].recipientId
  }

  ghost predicate PendingReserved(t: Tables)
  {
    forall rid :: rid in t.requests && t.requests[rid].status == Pending ==> Reserves(t, t.requests[rid])
  }

  /** No slot is promised to two pending requests. */
  ghost predicate PendingDisjoint(t: Tables)
  {
    forall r1, r2 :: r1 in t.requests && r2 in t.requests && r1 != r2
                     && t.requests[r1].status == Pending && t.requests[r2].status == Pending
                     ==> Disjoint(t.requests[r1], t.requests[r2])
  }

  /** Slot `id` exists and is SWAP_PENDING. */
  predicate IsReserved(t: Tables, id: EventId)
  {
    id in t.events && t.events[id].status == SwapPending
  }

  /** Every SWAP_PENDING slot is claimed by some pending request. */
  ghost predicate ReservedClaimed(t: Tables)
  {
    forall id {:trigger IsReserved(t, id)} :: IsReserved(t, id) ==> exists rid :: Claims(t, rid, id)
  }

  /** A slot is SWAP_PENDING exactly when a pending request claims it, and then
      only one does; its owner is the party of that request it belongs to. */
  ghost predicate SwapInvariant(t: Tables)
  {
    DistinctParties(t) && PendingReserved(t) && PendingDisjoint(t) && ReservedClaimed(t)
  }

  /** Under the invariant, a SWAP_PENDING slot is claimed by exactly one pending
      request, and a slot claimed by a pending request is SWAP_PENDING. */
  lemma ReservedByExactlyOne(t: Tables, id: EventId)
    requires SwapInvariant(t)
    ensures IsReserved(t, id) <==> exists rid :: Claims(t, rid, id)
    ensures forall r1, r2 :: Claims(t, r1, id) && Claims(t, r2, id) ==> r1 == r2
  {
    if exists rid :: Claims(t, rid, id) {
      var rid :| Claims(t, rid, id);
      assert Reserves(t, t.requests[rid]);
    }
  }

  /** A new pending request over two SWAPPABLE slots of its two parties, once
      both slots are SWAP_PENDING, keeps the invariant. */
  lemma ReservingPreserves(t: Tables, newId: RequestId, request: SwapRequest)
    requires SwapInvariant(t) && newId !in t.requests
    requires Requestable(t.events, request.mySlotId) && Requestable(t.events, request.theirSlotId)
    requires t.events[request.mySlotId].userId == request.requesterId
    requires t.events[request.theirSlotId].userId == request.recipientId
    requires request.requesterId != request.recipientId && request.status == Pending
    ensures var (a, b) := (request.mySlotId, request.theirSlotId);
            SwapInvariant(Tables(t.events[a := t.events[a].(status := SwapPending)]
                                         [b := t.events[b].(status := SwapPending)],
                                 t.requests[newId := request]))
  {
    var (a, b) := (request.mySlotId, request.theirSlotId);
    var t' := Tables(t.events[a := t.events[a].(status := SwapPending)][b := t.events[b].(status := SwapPending)],
                     t.requests[newId := request]);
    // no pending request claims a SWAPPABLE slot
    forall rid | rid in t.requests && t.requests[rid].status == Pending
      ensures Disjoint(t.requests[rid], request) && Disjoint(request, t.requests[rid])
      ensures Reserves(t', t.requests[rid])
    {
      assert Reserves(t, t.requests[rid]);
    }
    assert PendingReserved(t');
    assert PendingDisjoint(t');
    forall id | IsReserved(t', id)
      ensures exists rid :: Claims(t', rid, id)
    {
      if id == a || id == b {
        assert Claims(t', newId, id);
      } else {
        assert IsReserved(t, id);
        var rid :| Claims(t, rid, id);
        assert Claims(t', rid, id);
      }
    }
  }

  /** Deciding a pending request, with both its slots leaving SWAP_PENDING,
      keeps the invariant whatever the slots' new owners. */
  lemma DecidingPreserves(t: Tables, requestId: RequestId, o: Event, q: Event, status: RequestStatus)
    requires SwapInvariant(t)
    requires requestId in t.requests && t.requests[requestId].status == Pending
    requires status != Pending && o.status != SwapPending && q.status != SwapPending
    ensures var r := t.requests[requestId];
            SwapInvariant(Tables(t.events[r.mySlotId := o][r.theirSlotId := q],
                                 t.requests[requestId := r.(status := status)]))
  {
    var decided := t.requests[requestId];
    var t' := Tables(t.events[decided.mySlotId := o][decided.theirSlotId := q],
                     t.requests[requestId := decided.(status := status)]);
    // any other pending request claims neither slot of the decided one
    forall rid | rid in t'.requests && t'.requests[rid].status == Pending
      ensures rid != requestId && Disjoint(t.requests[rid], decided)
      ensures Reserves(t', t'.requests[rid])
    {
      assert Reserves(t, t.requests[rid]);
    }
    assert PendingReserved(t');
    forall id | IsReserved(t', id)
      ensures exists rid :: Claims(t', rid, id)
    {
      assert IsReserved(t, id);
      var rid :| Claims(t, rid, id);
      assert rid != requestId;
      assert Claims(t', rid, id);
    }
  }

  lemma ProposePreservesInvariant(t: Tables, caller: UserId, mySlotId: EventId, theirSlotId: EventId,
                                  newId: RequestId)
    requires SwapInvariant(t)
    requires newId !in t.requests
    requires SavableAt(t.events, mySlotId) && SavableAt(t.events, theirSlotId)
    ensures SwapInvariant(Propose(t, caller, mySlotId, theirSlotId, newId).0)
  {
    var (t', r) := Propose(t, caller, mySlotId, theirSlotId, newId);
    if r.Ok? {
      ReservingPreserves(t, newId, r.body.request);
    }
  }

  lemma RespondPreservesInvariant(t: Tables, caller: UserId, requestId: RequestId, accept: bool)
    requires SwapInvariant(t) && DecisionSavable(t, requestId)
    ensures SwapInvariant(Respond(t, caller, requestId, accept).0)
  {
    var (t', r) := Respond(t, caller, requestId, accept);
    if r.Ok? {
      var decided := t.requests[requestId];
      var (a, b) := (decided.mySlotId, decided.theirSlotId);
      var o := if accept then t.events[a].(userId := t.events[b].userId, status := Busy) else t.events[a].(status := Swappable);
      var q := if accept then t.events[b].(userId := t.events[a].userId, status := Busy) else t.events[b].(status := Swappable);
      DecidingPreserves(t, requestId, o, q, if accept then Accepted else Rejected);
    }
  }

  /** As one transaction, createSwapRequest keeps the invariant whatever the
      stored titles. */
  lemma ProposeAllOrNothingPreservesInvariant(t: Tables, caller: UserId, mySlotId: EventId, theirSlotId: EventId,
                                              newId: RequestId)
    requires SwapInvariant(t)
    requires newId !in t.requests
    ensures SwapInvariant(ProposeAllOrNothing(t, caller, mySlotId, theirSlotId, newId).0)
  {
    if Propose(t, caller, mySlotId, theirSlotId, newId).1.Ok? {
      ProposePreservesInvariant(t, caller, mySlotId, theirSlotId, newId);
    }
  }

  /** As one transaction, respondToSwapRequest keeps the invariant whatever
      the stored titles. */
  lemma RespondAllOrNothingPreservesInvariant(t: Tables, caller: UserId, requestId: RequestId, accept: bool)
    requires SwapInvariant(t)
    ensures SwapInvariant(RespondAllOrNothing(t, caller, requestId, accept).0)
  {
    if Respond(t, caller, requestId, accept).1.Ok? {
      RespondPreservesInvariant(t, caller, requestId, accept);
    }
  }

  // ---------------------------------------------------------------------------
  // Properties of the engine

  /** A request is decided at most once: after a successful response it is no
      longer pending, so any second response to it fails and writes nothing. */
  lemma RespondAtMostOnce(t: Tables, caller: UserId, requestId: RequestId, accept: bool,
                          caller': UserId, accept': bool)
    requires Respond(t, caller, requestId, accept).1.Ok?
    ensures var t' := Respond(t, caller, requestId, accept).0;
            Respond(t', caller', requestId, accept') == (t', Fail(400, InvalidRequest))
  {
    var t' := Respond(t, caller, requestId, accept).0;
    assert t'.requests[requestId].status != Pending;
  }

  /** Only the recipient of a request can decide it. */
  lemma OnlyRecipientDecides(t: Tables, caller: UserId, requestId: RequestId, accept: bool)
    requires requestId in t.requests && t.requests[requestId].recipientId != caller
    ensures Respond(t, caller, requestId, accept) == (t, Fail(400, InvalidRequest))
  {
  }

  /** Under the invariant, a slot promised to a pending request is in nobody's
      swappable list, and no new request can be made on it from either side. */
  lemma NoDoubleReservation(t: Tables, rid: RequestId, id: EventId, caller: UserId, other: EventId,
                            newId: RequestId)
    requires SwapInvariant(t) && Claims(t, rid, id)
    ensures id !in GetSwappableSlots(t, caller).body
    ensures Propose(t, caller, id, other, newId) == (t, Fail(400, NotSwappable))
    ensures Propose(t, caller, other, id, newId) == (t, Fail(400, NotSwappable))
  {
    assert Reserves(t, t.requests[rid]);
  }

  /** Proposing and then rejecting leaves every slot as it was, and the request
      on record as REJECTED. */
  lemma ProposeThenRejectRestoresSlots(t: Tables, caller: UserId, mySlotId: EventId, theirSlotId: EventId,
                                       newId: RequestId)
    requires Propose(t, caller, mySlotId, theirSlotId, newId).1.Ok?
    ensures var (t1, r1) := Propose(t, caller, mySlotId, theirSlotId, newId);
            var (t2, r2) := Respond(t1, t.events[theirSlotId].userId, newId, false);
            && r2.Ok?
            && t2.events == t.events
            && t2.requests == t.requests[newId := r1.body.request.(status := Rejected)]
  {
    var (t1, r1) := Propose(t, caller, mySlotId, theirSlotId, newId);
    var (t2, r2) := Respond(t1, t.events[theirSlotId].userId, newId, false);
    assert t2.events == t.events by {
      forall id | id in t.events ensures t2.events[id] == t.events[id] {
      }
    }
  }

  /** Proposing and then accepting hands each slot to the other party, marks
      both BUSY, and changes no title, time or other slot. */
  lemma ProposeThenAcceptExchangesOwners(t: Tables, caller: UserId, mySlotId: EventId, theirSlotId: EventId,
                                         newId: RequestId)
    requires Propose(t, caller, mySlotId, theirSlotId, newId).1.Ok?
    ensures var t1 := Propose(t, caller, mySlotId, theirSlotId, newId).0;
            var recipient := t.events[theirSlotId].userId;
            var (t2, r2) := Respond(t1, recipient, newId, true);
            && r2.Ok?
            && t2.events == t.events[mySlotId := t.events[mySlotId].(userId := recipient, status := Busy)]
                                    [theirSlotId := t.events[theirSlotId].(userId := caller, status := Busy)]
            && t2.requests[newId].status == Accepted
  {
    var t1 := Propose(t, caller, mySlotId, theirSlotId, newId).0;
    var recipient := t.events[theirSlotId].userId;
    var t2 := Respond(t1, recipient, newId, true).0;
    assert mySlotId != theirSlotId;
    var expected := t.events[mySlotId := t.events[mySlotId].(userId := recipient, status := Busy)]
                            [theirSlotId := t.events[theirSlotId].(userId := caller, status := Busy)];
    assert t2.events == expected by {
      forall id | id in t.events ensures t2.events[id] == expected[id] {
      }
    }
  }

  /** Under the invariant no request is both incoming and outgoing for a user. */
  lemma InboxDisjoint(t: Tables, caller: UserId)
    requires DistinctParties(t)
    ensures GetSwapRequests(t, caller).body.incoming.Keys !! GetSwapRequests(t, caller).body.outgoing.Keys
  {
  }
}
