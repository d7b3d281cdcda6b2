/** How owner-scoped CRUD on events interacts with the swap engine. The event
    handlers never look at swap requests, so they keep the engine's invariant
    only where they cannot touch a promised slot. */
module Interference {
  import opened Wrappers
  import opened EventModel
  import opened SwapRequestModel
  import opened Database
  import opened Http
  import opened SwapController
  import opened EventController

  /** Creating a slot that is not SWAP_PENDING keeps the swap invariant. */
  lemma CreatePreservesSwapInvariant(t: Tables, caller: UserId, input: EventInput, newId: EventId)
    requires SwapInvariant(t) && newId !in t.events
    requires StatusOrBusy(input.status) != "SWAP_PENDING"
    ensures SwapInvariant(Create(t, caller, input, newId).0)
  {
    var (t', r) := Create(t, caller, input, newId);
    if r.Ok? {
      forall rid | rid in t.requests && t.requests[rid].status == Pending
        ensures Reserves(t', t.requests[rid])
      {
        assert Reserves(t, t.requests[rid]);
      }
      forall id | IsReserved(t', id)
        ensures exists rid :: Claims(t', rid, id)
      {
        assert id != newId;
        assert IsReserved(t, id);
        var rid :| Claims(t, rid, id);
        assert Claims(t', rid, id);
      }
    }
  }

  /** The enum accepts SWAP_PENDING from a client, so a slot can be created
      SWAP_PENDING with no request claiming it. */
  lemma CreateCanReserveUnclaimed(t: Tables, caller: UserId, input: EventInput, newId: EventId)
    requires SwapInvariant(t) && newId !in t.events
    requires Acceptable(input) && StatusOrBusy(input.status) == "SWAP_PENDING"
    ensures !SwapInvariant(Create(t, caller, input, newId).0)
  {
    var t' := Create(t, caller, input, newId).0;
    assert IsReserved(t', newId);
    // every pending request's slots were already stored, so none refers to the new id
    forall rid | rid in t'.requests && t'.requests[rid].status == Pending
      ensures !Claims(t', rid, newId)
    {
      assert Reserves(t, t.requests[rid]);
    }
  }

  /** The owner of a slot promised to a pending request can mark it SWAPPABLE
      again; it is then offered to every other user, and a second request can
      claim it while the first is still pending. */
  lemma OwnerCanReofferPromisedSlot(t: Tables, rid: RequestId, other: UserId, otherSlot: EventId,
                                    newId: RequestId)
    requires SwapInvariant(t) && rid in t.requests && t.requests[rid].status == Pending
    requires newId !in t.requests
    requires Offerable(t.events, other, otherSlot) && other != t.requests[rid].requesterId
    requires Savable(t.events[otherSlot]) && SavableAt(t.events, t.requests[rid].mySlotId)
    ensures var r := t.requests[rid];
            var (t1, u) := Update(t, r.requesterId, r.mySlotId, EventPatch(None, None, None, Some(Swappable)));
            var (t2, p) := Propose(t1, other, otherSlot, r.mySlotId, newId);
            && u.Ok? && r.mySlotId in GetSwappableSlots(t1, other).body
            && p.Ok? && Claims(t2, rid, r.mySlotId) && Claims(t2, newId, r.mySlotId)
            && !PendingDisjoint(t2)
  {
    var r := t.requests[rid];
    assert Reserves(t, r);
    var t1 := Update(t, r.requesterId, r.mySlotId, EventPatch(None, None, None, Some(Swappable))).0;
    // the other user's slot is not the promised one: that one was SWAP_PENDING
    assert otherSlot != r.mySlotId;
    var t2 := Propose(t1, other, otherSlot, r.mySlotId, newId).0;
    assert rid != newId && t2.requests[rid] == r;
    assert !Disjoint(t2.requests[rid], t2.requests[newId]);
  }

  /** The owner of a slot promised to a pending request can delete it; the
      request then stays pending, and every response to it fails with a 500
      and writes nothing. */
  lemma DeletedSlotStrandsRequest(t: Tables, rid: RequestId, accept: bool)
    requires SwapInvariant(t) && rid in t.requests && t.requests[rid].status == Pending
    ensures var r := t.requests[rid];
            var (t1, d) := Delete(t, r.requesterId, r.mySlotId);
            && d.Ok? && t1.requests[rid] == r
            && Respond(t1, r.recipientId, rid, accept) == (t1, Fail(500, MissingSlotMessage(accept)))
  {
    assert Reserves(t, t.requests[rid]);
  }

  /** An update may store an empty title, since it runs no validators. */
  lemma EmptyTitlePatch(t: Tables, caller: UserId, id: EventId)
    requires Owns(t, caller, id)
    ensures var (t1, u) := Update(t, caller, id, EventPatch(Some(""), None, None, None));
            && u.Ok? && t1.events == t.events[id := t.events[id].(title := [])]
  {
    assert Trim("") == [];
  }

  /** The recipient of a pending request empties the title of the slot
      requested of them, then accepts. The offered slot is saved to the
      recipient and BUSY, and then saving the requested slot fails. The request
      stays PENDING, the requester has lost their slot, and the invariant is broken. */
  lemma EmptiedTitleLosesSlot(t: Tables, rid: RequestId)
    requires SwapInvariant(t) && rid in t.requests && t.requests[rid].status == Pending
    requires Savable(t.events[t.requests[rid].mySlotId])
    ensures var r := t.requests[rid];
            var (a, b) := (r.mySlotId, r.theirSlotId);
            var (t1, u) := Update(t, r.recipientId, b, EventPatch(Some(""), None, None, None));
            var (t2, d) := Respond(t1, r.recipientId, rid, true);
            && u.Ok? && d == ValidationFailure(SaveErrors(t1.events[b])) && d.code == 400
            && t2.events[a].userId == r.recipientId && t2.events[a].status == Busy
            && t2.events[b].userId == r.recipientId
            && t2.requests[rid] == r
            && !SwapInvariant(t2)
  {
    var r := t.requests[rid];
    assert Reserves(t, r);
    EmptyTitlePatch(t, r.recipientId, r.theirSlotId);
    var t1 := Update(t, r.recipientId, r.theirSlotId, EventPatch(Some(""), None, None, None)).0;
    assert r.mySlotId != r.theirSlotId;
    var t2 := Respond(t1, r.recipientId, rid, true).0;
    assert !Reserves(t2, t2.requests[rid]);
  }

  /** The owner of a SWAPPABLE slot empties its title, and another user then
      proposes for it. The request is inserted and the proposer's slot saved
      SWAP_PENDING before saving the requested slot fails: a pending request
      claims a slot that is still SWAPPABLE, and the invariant is broken. */
  lemma EmptiedTitleStrandsProposal(t: Tables, caller: UserId, mySlotId: EventId, theirSlotId: EventId,
                                    newId: RequestId)
    requires SwapInvariant(t) && newId !in t.requests
    requires Admissible(t, caller, mySlotId, theirSlotId) && Savable(t.events[mySlotId])
    ensures var owner := t.events[theirSlotId].userId;
            var (t1, u) := Update(t, owner, theirSlotId, EventPatch(Some(""), None, None, None));
            var (t2, p) := Propose(t1, caller, mySlotId, theirSlotId, newId);
            && u.Ok? && p == ValidationFailure(SaveErrors(t1.events[theirSlotId])) && p.code == 400
            && Claims(t2, newId, theirSlotId) && t2.events[theirSlotId].status == Swappable
            && t2.events[mySlotId].status == SwapPending
            && !SwapInvariant(t2)
  {
    var owner := t.events[theirSlotId].userId;
    EmptyTitlePatch(t, owner, theirSlotId);
    var t1 := Update(t, owner, theirSlotId, EventPatch(Some(""), None, None, None)).0;
    assert Admissible(t1, caller, mySlotId, theirSlotId);
    var t2 := Propose(t1, caller, mySlotId, theirSlotId, newId).0;
    assert !Reserves(t2, t2.requests[newId]);
  }
}
