/** Owner-scoped CRUD on the events collection (server/src/controllers/eventController.js).
    Every action is filtered by the caller's id; none of them reads or writes
    the swap requests. */
module EventController {
  import opened Wrappers
  import opened EventModel
  import opened SwapRequestModel
  import opened Database
  import opened Http

  const NotFoundOrNotYours: string := "Event not found or not yours"

  /** The fields of a request body; None for a field the body leaves out. */
  datatype EventInput = EventInput(title: Option<string>, startTime: Option<Time>, endTime: Option<Time>,
                                   status: Option<string>)

  /** The fields of an update body; None for a field the body leaves out, which
      the update then leaves as it is. */
  datatype EventPatch = EventPatch(title: Option<string>, startTime: Option<Time>, endTime: Option<Time>,
                                   status: Option<Status>)

  datatype Listing = Listing(message: string, events: map<EventId, Event>)

  /** The body of a response that carries one event. */
  datatype Saved = Saved(message: string, id: EventId, event: Event)

  // ---------------------------------------------------------------------------
  // GET /api/events

  function GetEvents(t: Tables, caller: UserId): (r: Response<Listing>)
    ensures r.Ok? && r.code == 200 && r.body.message == "Fetched all the Events"
    ensures forall id :: id in r.body.events <==> id in t.events && t.events[id].userId == caller
    ensures forall id :: id in r.body.events ==> id in t.events && r.body.events[id] == t.events[id]
  {
    Ok(200, Listing("Fetched all the Events", map id | id in t.events && t.events[id].userId == caller :: t.events[id]))
  }

  // ---------------------------------------------------------------------------
  // POST /api/events

  /** `status || 'BUSY'`: an absent or empty status becomes BUSY. */
  function StatusOrBusy(status: Option<string>): (name: string)
    ensures status.None? ==> name == "BUSY"
    ensures status.Some? ==> name == if status.value == [] then "BUSY" else status.value
  {
    if status.None? || status.value == "" then "BUSY" else status.value
  }

  /** The body would pass validation. */
  predicate Acceptable(input: EventInput)
  {
    && input.title.Some? && Trim(input.title.value) != []
    && input.startTime.Some? && input.endTime.Some?
    && StatusOrBusy(input.status) in StatusNames
  }

  /** createEvent with `newId` as the id the new document gets. */
  function Create(t: Tables, caller: UserId, input: EventInput, newId: EventId): (out: (Tables, Response<Saved>))
    ensures out.1.Fail? ==> out.0 == t && out.1.code == 400
    ensures out.1.Ok? <==> Acceptable(input)
    ensures out.1.Ok? ==>
              var e := out.1.body.event;
              && out.1 == Ok(201, Saved("Event Created successfully", newId, e))
              && out.0 == Tables(t.events[newId := e], t.requests)
              && e.userId == caller && Validated(e)
              && Padded(input.title.value, e.title)
              && e.startTime == input.startTime.value && e.endTime == input.endTime.value
              && StatusName(e.status) == StatusOrBusy(input.status)
  {
    var event := NewEvent(caller, input.title, input.startTime, input.endTime, Some(StatusOrBusy(input.status)));
    if event.Failure? then (t, ValidationFailure(event.error))
    else (Tables(t.events[newId := event.value], t.requests),
          Ok(201, Saved("Event Created successfully", newId, event.value)))
  }

  method CreateEvent(db: Db, caller: UserId, input: EventInput) returns (res: Response<Saved>)
    requires db.Valid()
    modifies db
    ensures db.Valid()
    ensures (db.Snapshot(), res) == Create(old(db.Snapshot()), caller, input, old(db.nextEventId))
  {
    var event := NewEvent(caller, input.title, input.startTime, input.endTime, Some(StatusOrBusy(input.status)));
    if event.Failure? {
      return ValidationFailure(event.error);
    }
    var id := db.InsertEvent(event.value);
    res := Ok(201, Saved("Event Created successfully", id, event.value));
  }

  /** createEvent as the application is wired. server/src/app.js installs
      errorMiddleware before the routes, so Express never reaches it after a
      controller calls `next(err)`: a validation error goes to the catch-all
      handler instead. */
  function CreateAsWired(t: Tables, caller: UserId, input: EventInput, newId: EventId): (out: (Tables, Response<Saved>))
    ensures out.1.Fail? ==> out.0 == t && out.1.code == 500
    ensures out.1.Ok? <==> Acceptable(input)
  {
    var event := NewEvent(caller, input.title, input.startTime, input.endTime, Some(StatusOrBusy(input.status)));
    if event.Failure? then (t, UnmappedValidationFailure("Event", event.error))
    else Create(t, caller, input, newId)
  }

  /** The wiring changes nothing but the answer to an invalid body: 500 with
      Mongoose's combined message where 400 with the path messages is meant. */
  lemma WiringOnlyChangesValidationAnswer(t: Tables, caller: UserId, input: EventInput, newId: EventId)
    ensures CreateAsWired(t, caller, input, newId).0 == Create(t, caller, input, newId).0
    ensures Acceptable(input) ==> CreateAsWired(t, caller, input, newId) == Create(t, caller, input, newId)
    ensures !Acceptable(input) ==>
              && Create(t, caller, input, newId).1.code == 400
              && CreateAsWired(t, caller, input, newId).1.code == 500
  {
  }

  /** A body without a title fails on the title path alone. */
  lemma MissingTitleFailsOnTitle(caller: UserId, startTime: Time, endTime: Time)
    ensures NewEvent(caller, None, Some(startTime), Some(endTime), Some(StatusOrBusy(None)))
            == Failure([PathError("title", RequiredMessage("title"))])
  {
    assert StatusOrBusy(None) == "BUSY";
    assert ParseStatus("BUSY") == Some(Busy);
    assert ValidationErrors(None, Some(startTime), Some(endTime), Some("BUSY"))
           == [PathError("title", RequiredMessage("title"))];
  }

  /** A body without a title: the wired application answers 500 with
      "Event validation failed: title: Path `title` is required.", the intended
      handler 400 with "Path `title` is required.". */
  lemma MissingTitleAnswered500(t: Tables, caller: UserId, startTime: Time, endTime: Time, newId: EventId)
    ensures CreateAsWired(t, caller, EventInput(None, Some(startTime), Some(endTime), None), newId).1
            == Fail(500, "Event" + " validation failed: " + "title" + ": " + RequiredMessage("title"))
    ensures Create(t, caller, EventInput(None, Some(startTime), Some(endTime), None), newId).1
            == Fail(400, RequiredMessage("title"))
  {
    MissingTitleFailsOnTitle(caller, startTime, endTime);
    var errors := [PathError("title", RequiredMessage("title"))];
    assert errors[1..] == [];
    assert Messages(errors) == [RequiredMessage("title")];
    assert Described(errors) == ["title" + ": " + RequiredMessage("title")];
  }

  /** A body without a status, or with an empty one, creates a BUSY slot. */
  lemma CreateDefaultsToBusy(t: Tables, caller: UserId, input: EventInput, newId: EventId)
    requires input.status.None? || input.status == Some("")
    requires input.title.Some? && Trim(input.title.value) != [] && input.startTime.Some? && input.endTime.Some?
    ensures Create(t, caller, input, newId).1.Ok?
    ensures Create(t, caller, input, newId).1.body.event.status == Busy
  {
  }

  /** Storing an event of the caller's adds it to the caller's listing. */
  lemma ListingOfInsert(t: Tables, caller: UserId, id: EventId, e: Event)
    requires e.userId == caller
    ensures GetEvents(Tables(t.events[id := e], t.requests), caller).body.events
            == GetEvents(t, caller).body.events[id := e]
  {
    var before := GetEvents(t, caller).body.events;
    var after := GetEvents(Tables(t.events[id := e], t.requests), caller).body.events;
    assert after.Keys == before.Keys + {id};
  }

  /** A new event is listed among its owner's events. */
  lemma CreatedIsListed(t: Tables, caller: UserId, input: EventInput, newId: EventId)
    requires Create(t, caller, input, newId).1.Ok?
    ensures var (t', r) := Create(t, caller, input, newId);
            GetEvents(t', caller).body.events == GetEvents(t, caller).body.events[newId := r.body.event]
  {
    var r := Create(t, caller, input, newId).1;
    ListingOfInsert(t, caller, newId, r.body.event);
  }

  // ---------------------------------------------------------------------------
  // PUT /api/events/:id

  /** The update document applied to a stored event; the title goes through the trim setter. */
  function ApplyPatch(e: Event, patch: EventPatch): (r: Event)
    ensures r.userId == e.userId
    ensures r.title == if patch.title.Some? then Trim(patch.title.value) else e.title
    ensures r.startTime == patch.startTime.GetOr(e.startTime) && r.endTime == patch.endTime.GetOr(e.endTime)
    ensures r.status == patch.status.GetOr(e.status)
  {
    e.(title := if patch.title.Some? then Trim(patch.title.value) else e.title,
       startTime := patch.startTime.GetOr(e.startTime),
       endTime := patch.endTime.GetOr(e.endTime),
       status := patch.status.GetOr(e.status))
  }

  /** The caller owns an event with this id. */
  predicate Owns(t: Tables, caller: UserId, id: EventId)
  {
    id in t.events && t.events[id].userId == caller
  }

  function Update(t: Tables, caller: UserId, id: EventId, patch: EventPatch): (out: (Tables, Response<Saved>))
    ensures out.0.requests == t.requests
    ensures out.1.Fail? ==> out.0 == t
    ensures out.1 == Fail(404, NotFoundOrNotYours) <==> !Owns(t, caller, id)
    ensures out.1.Ok? <==> Owns(t, caller, id)
    ensures out.1.Ok? ==>
              && out.0.events == t.events[id := ApplyPatch(t.events[id], patch)]
              && out.1 == Ok(200, Saved("Event updated successfully", id, out.0.events[id]))
  {
    var found := FindEvent(t.events, id, Some(caller), None);
    if found.None? then (t, Fail(404, NotFoundOrNotYours))
    else
      var event := ApplyPatch(found.value, patch);
      (Tables(t.events[id := event], t.requests), Ok(200, Saved("Event updated successfully", id, event)))
  }

  method UpdateEvent(db: Db, caller: UserId, id: EventId, patch: EventPatch) returns (res: Response<Saved>)
    requires db.Valid()
    modifies db
    ensures db.Valid()
    ensures (db.Snapshot(), res) == Update(old(db.Snapshot()), caller, id, patch)
  {
    var found := FindEvent(db.events, id, Some(caller), None);
    if found.None? {
      return Fail(404, NotFoundOrNotYours);
    }
    var event := ApplyPatch(found.value, patch);
    db.WriteEvent(id, event);
    res := Ok(200, Saved("Event updated successfully", id, event));
  }

  /** Sending the same update twice is the same as sending it once. */
  lemma UpdateIdempotent(t: Tables, caller: UserId, id: EventId, patch: EventPatch)
    ensures var t1 := Update(t, caller, id, patch).0;
            Update(t1, caller, id, patch) == Update(t, caller, id, patch)
  {
    if Owns(t, caller, id) {
      var e := ApplyPatch(t.events[id], patch);
      if patch.title.Some? {
        TrimIdempotent(patch.title.value);
      }
      assert ApplyPatch(e, patch) == e;
      var t1 := Update(t, caller, id, patch).0;
      assert t1.events[id := e] == t1.events;
    }
  }

  /** An update never moves a slot to another owner. */
  lemma UpdateKeepsOwners(t: Tables, caller: UserId, id: EventId, patch: EventPatch)
    ensures var t' := Update(t, caller, id, patch).0;
            t'.events.Keys == t.events.Keys
            && forall k :: k in t.events ==> t'.events[k].userId == t.events[k].userId
  {
  }

  /** Updates run no validators: a title of only white space is stored empty,
      so a stored event need not satisfy what creation checks. */
  lemma UpdateCanEmptyTitle(t: Tables, caller: UserId, id: EventId)
    requires Owns(t, caller, id)
    ensures var t' := Update(t, caller, id, EventPatch(Some("  "), None, None, None)).0;
            !Validated(t'.events[id])
  {
    assert Trim("  ") == [] by {
      var s: string := "  ";
      assert AllWhitespace(s) && s[..0] == [] && s[0..0] == [] && s[0..] == s;
      TrimOfPadded(s, []);
    }
  }

  // ---------------------------------------------------------------------------
  // DELETE /api/events/:id

  function Delete(t: Tables, caller: UserId, id: EventId): (out: (Tables, Response<string>))
    ensures out.0.requests == t.requests
    ensures out.1.Fail? ==> out.0 == t
    ensures out.1 == Fail(404, NotFoundOrNotYours) <==> !Owns(t, caller, id)
    ensures out.1.Ok? <==> Owns(t, caller, id)
    ensures out.1.Ok? ==> out.1 == Ok(200, "Event deleted") && out.0.events == t.events - {id}
  {
    var found := FindEvent(t.events, id, Some(caller), None);
    if found.None? then (t, Fail(404, NotFoundOrNotYours))
    else (Tables(t.events - {id}, t.requests), Ok(200, "Event deleted"))
  }

  method DeleteEvent(db: Db, caller: UserId, id: EventId) returns (res: Response<string>)
    requires db.Valid()
    modifies db
    ensures db.Valid()
    ensures (db.Snapshot(), res) == Delete(old(db.Snapshot()), caller, id)
  {
    var found := FindEvent(db.events, id, Some(caller), None);
    if found.None? {
      return Fail(404, NotFoundOrNotYours);
    }
    db.RemoveEvent(id);
    res := Ok(200, "Event deleted");
  }

  /** Deleting an event just stored under a fresh id gives the old tables back. */
  lemma DeleteOfInsert(t: Tables, caller: UserId, id: EventId, e: Event)
    requires id !in t.events && e.userId == caller
    ensures Delete(Tables(t.events[id := e], t.requests), caller, id) == (t, Ok(200, "Event deleted"))
  {
    assert t.events[id := e] - {id} == t.events;
  }

  /** Deleting an event just created undoes the creation. */
  lemma CreateThenDeleteRestores(t: Tables, caller: UserId, input: EventInput, newId: EventId)
    requires newId !in t.events
    requires Create(t, caller, input, newId).1.Ok?
    ensures var t' := Create(t, caller, input, newId).0;
            Delete(t', caller, newId) == (t, Ok(200, "Event deleted"))
  {
    var r := Create(t, caller, input, newId).1;
    DeleteOfInsert(t, caller, newId, r.body.event);
  }
}
