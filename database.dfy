/** The two MongoDB collections the controllers share, as one in-memory store,
    and the Mongoose primitives the controllers use on them. Each document gets a
    fresh id from a per-collection counter, standing for ObjectId generation. */
module Database {
  import opened Wrappers
  import opened EventModel
  import opened SwapRequestModel

  /** A snapshot of both collections. */
  datatype Tables = Tables(events: map<EventId, Event>, requests: map<RequestId, SwapRequest>)

  /** `Model.findOne` on the events collection: the event with that id, provided
      it has the given owner and status where those are part of the filter. */
  function FindEvent(events: map<EventId, Event>, id: EventId, owner: Option<UserId>,
                     status: Option<Status>): (r: Option<Event>)
    ensures r.Some? <==> (id in events && (owner.Some? ==> events[id].userId == owner.value)
                          && (status.Some? ==> events[id].status == status.value))
    ensures r.Some? ==> r.value == events[id]
  {
    if id in events && (owner.None? || events[id].userId == owner.value)
       && (status.None? || events[id].status == status.value)
    then Some(events[id])
    else None
  }

  /** `findById` on either collection, and `populate` of a reference. */
  function Lookup<K, V>(m: map<K, V>, id: K): (r: Option<V>)
    ensures r.Some? <==> id in m
    ensures r.Some? ==> r.value == m[id]
  {
    if id in m then Some(m[id]) else None
  }

  class Db {
    var events: map<EventId, Event>
    var requests: map<RequestId, SwapRequest>
    var nextEventId: EventId
    var nextRequestId: RequestId

    /** Every stored id was handed out by its counter. */
    ghost predicate Valid()
      reads this
    {
      (forall id :: id in events ==> id < nextEventId)
      && (forall id :: id in requests ==> id < nextRequestId)
    }

    function Snapshot(): Tables
      reads this
    {
      Tables(events, requests)
    }

    constructor ()
      ensures Valid()
      ensures events == map[] && requests == map[]
    {
      events, requests := map[], map[];
      nextEventId, nextRequestId := 0, 0;
    }

    /** `save()` on a new event document. */
    method InsertEvent(e: Event) returns (id: EventId)
      requires Valid()
      modifies this
      ensures Valid()
      ensures id == old(nextEventId) && id !in old(events)
      ensures events == old(events)[id := e] && requests == old(requests)
      ensures nextRequestId == old(nextRequestId)
    {
      id := nextEventId;
      events := events[id := e];
      nextEventId := nextEventId + 1;
    }

    /** `save()` on an event document that was read from the collection: the
        validators run first, and a failing document is not written. */
    method SaveEvent(id: EventId, e: Event) returns (errors: seq<PathError>)
      requires Valid() && id in events
      modifies this
      ensures Valid()
      ensures errors == SaveErrors(e)
      ensures events == if errors == [] then old(events)[id := e] else old(events)
      ensures requests == old(requests)
      ensures nextEventId == old(nextEventId) && nextRequestId == old(nextRequestId)
    {
      errors := SaveErrors(e);
      if errors == [] {
        events := events[id := e];
      }
    }

    /** The writing half of `findOneAndUpdate`, which runs no validators. */
    method WriteEvent(id: EventId, e: Event)
      requires Valid() && id in events
      modifies this
      ensures Valid()
      ensures events == old(events)[id := e] && requests == old(requests)
      ensures nextEventId == old(nextEventId) && nextRequestId == old(nextRequestId)
    {
      events := events[id := e];
    }

    /** The deleting half of `findOneAndDelete`. */
    method RemoveEvent(id: EventId)
      requires Valid()
      modifies this
      ensures Valid()
      ensures events == old(events) - {id} && requests == old(requests)
      ensures nextEventId == old(nextEventId) && nextRequestId == old(nextRequestId)
    {
      events := events - {id};
    }

    /** `SwapRequest.create`. */
    method InsertRequest(r: SwapRequest) returns (id: RequestId)
      requires Valid()
      modifies this
      ensures Valid()
      ensures id == old(nextRequestId) && id !in old(requests)
      ensures requests == old(requests)[id := r] && events == old(events)
      ensures nextEventId == old(nextEventId)
    {
      id := nextRequestId;
      requests := requests[id := r];
      nextRequestId := nextRequestId + 1;
    }

    /** `save()` on a request document that was read from the collection. */
    method SaveRequest(id: RequestId, r: SwapRequest)
      requires Valid() && id in requests
      modifies this
      ensures Valid()
      ensures requests == old(requests)[id := r] && events == old(events)
      ensures nextEventId == old(nextEventId) && nextRequestId == old(nextRequestId)
    {
      requests := requests[id := r];
    }
  }
}
