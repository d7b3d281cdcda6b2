# SlotSwapper swap engine, in Dafny

This project models the server side of SlotSwapper. Users publish time slots
(events) and trade ownership of two slots through a swap request. The model
covers two controllers that share one events collection:

- `swapController.js` holds the swap engine. It lists the slots other users
  offer, creates a request, lists a user's requests, and accepts or rejects one.
- `eventController.js` lets a user list, create, update and delete their own
  events.

The two Mongoose schemas become datatypes. An `Event` has an owner `userId`, a
title, start and end times, and a status (`BUSY`, `SWAPPABLE`, `SWAP_PENDING`).
A `SwapRequest` links a requester, a recipient, the requester's slot, the
recipient's slot, and a status (`PENDING`, `ACCEPTED`, `REJECTED`).

Layout, one module per file:

- `EventModel` (from `Event.js`): the schema's status enum and `BUSY` default. Also
  JavaScript `trim` for the title, and validation with Mongoose's default messages.
- `SwapRequestModel` (from `SwapRequest.js`): the request record and its `PENDING`
  default.
- `Http`: the response type, and how an error passed to `next(err)` becomes a
  response. Two handlers matter. `errorMiddleware.js` answers a validation error
  400 with the path messages. The catch-all in `app.js` answers 500 with the
  error's message, and is the one Express reaches (see Findings).
- `Database`: a snapshot `Tables` of the two collections, plus class `Db`. `Db`
  holds both maps and the id counters behind `save`, `create` and
  `findOneAndDelete`.
- `SwapController` and `EventController`: each handler is two things. One is a
  pure step on `Tables` that returns the new tables and the response. The other,
  for handlers that write, is a method on `Db` that reads, assigns and saves the
  documents one at a time, as the handler does, and is proved equal to the step.
  The read-only handlers are functions of the tables.
- `Interference`: what the owner-only event handlers do to the swap engine's
  invariant.
- `Walkthrough`: a client that runs propose, accept and a refused second answer
  on a fresh `Db`.

The engine's invariant, `SwapController.SwapInvariant`, has four parts:
1. Every request is between two different users.
2. A pending request's two slots exist, are `SWAP_PENDING`, and belong to its
   requester and recipient.
3. No slot belongs to two pending requests.
4. Every `SWAP_PENDING` slot is claimed by a pending request.

Creating and answering requests keep the invariant when the slots involved can be saved. So does creating an event
with any status except `SWAP_PENDING`. Updating or deleting an event can break
it: the event handlers never look at swap requests, and `Interference` proves
concrete ways this happens.

Ids are natural numbers. Times are opaque integers; the code never compares
them. The caller's user id is a parameter, standing in for the authenticated
`req.user._id`.

Where the intended design and the code disagree, the model follows the code:
- There is no conditional write, no `Conflict` and no retry.
- A handler's writes are not one unit: a `save()` that fails validation leaves the
  earlier writes in place.
- All three respond guards give the same 400 "Invalid swap request.".
- No start-before-end check exists.
- An owner's update or delete is not blocked while a request references the
  slot.

## Model

| member | source | states |
|---|---|---|
| EventModel.ParseStatus | server/src/models/Event.js:4 | a status string is accepted exactly when it is one of BUSY, SWAPPABLE, SWAP_PENDING, and then names the status it yields |
| EventModel.StatusNameRoundTrip | server/src/models/Event.js:28-32 | every status has a name in the enum, and reading that name back gives the same status |
| EventModel.TextStart | server/src/models/Event.js:16 | the index of the first character that is not white space: everything before it is white space |
| EventModel.TextEnd | server/src/models/Event.js:16 | one past the last character that is not white space: everything after it is white space |
| EventModel.Trim | server/src/models/Event.js:16 | the stored title has no white space at either end and is the input with only white space cut from the ends |
| EventModel.TrimOfPadded | server/src/models/Event.js:16 | any white-space padding of a stripped text trims back to that text, so the trimmed title is unique |
| EventModel.TrimIdempotent | server/src/models/Event.js:16 | trimming a trimmed title changes nothing |
| EventModel.NewEvent | server/src/models/Event.js:7-38 | a new document validates exactly when title (non-empty after trim), startTime and endTime are given and the status is absent or in the enum; then it is owned by the given user, has the trimmed title (non-empty), the given times, and the given status or BUSY; otherwise at least one message is reported |
| EventModel.NewEventDefaultStatus | server/src/models/Event.js:31 | a document built without a status is BUSY |
| EventModel.SaveErrors | server/src/models/Event.js:13-17 | `save()` of a stored event fails exactly when its title is empty, on title's required validator |
| EventModel.SaveErrorsAgree | server/src/models/Event.js:7-32 | on a stored (trimmed) title, saving reports exactly what creating a document from the same fields would |
| SwapRequestModel.RequestStatusName | server/src/models/SwapRequest.js:3 | each request status has a name in the enum PENDING, ACCEPTED, REJECTED |
| SwapRequestModel.NewSwapRequest | server/src/models/SwapRequest.js:5-31 | a request document carries the four given references, and is PENDING when no status is supplied |
| Http.JoinMessages | server/src/middleware/errorMiddleware.js:12 | no messages give an empty text, a single one is sent as it is, and a non-empty first message makes the text non-empty |
| Http.Messages | server/src/middleware/errorMiddleware.js:12 | the messages of the failing paths, one per path and in the same order |
| Http.Described | server/src/app.js:36 | each failing path rendered as `path: message`, one per path and in order, as Mongoose writes them into a ValidationError's message |
| Database.FindEvent | server/src/controllers/swapController.js:23-24 | `findOne` finds the event exactly when the id exists and its owner and status match the filter, and returns the stored record |
| Database.Lookup | server/src/controllers/swapController.js:68-76 | `findById` and `populate` find a record exactly when the id is stored |
| Database.Db.InsertEvent | server/src/controllers/eventController.js:32 | a new event gets a fresh id; only that entry is added |
| Database.Db.SaveEvent | server/src/controllers/swapController.js:42-43 | saving a read event first runs the validators. It reports the failing paths, writes the entry only when there are none, and changes nothing else |
| Database.Db.WriteEvent | server/src/controllers/eventController.js:48-52 | `findOneAndUpdate` overwrites only that entry, with no validation |
| Database.Db.RemoveEvent | server/src/controllers/eventController.js:69-74 | deleting removes only that id; requests are untouched |
| Database.Db.InsertRequest | server/src/controllers/swapController.js:33-39 | a new request gets a fresh id; only that entry is added |
| Database.Db.SaveRequest | server/src/controllers/swapController.js:99 | saving a read request overwrites only that entry |
| SwapController.GetSwappableSlots | server/src/controllers/swapController.js:8-12 | 200 with exactly the SWAPPABLE events whose owner is not the caller, each as stored |
| SwapController.Propose | server/src/controllers/swapController.js:21-44 | fails with 400 "One or both slots are not swappable." exactly when the offered slot is missing, not the caller's or not SWAPPABLE, or the requested slot is missing or not SWAPPABLE. Only after that check passes, it fails with 400 "Cannot swap with your own slot." exactly when the caller owns the requested slot. Both guard errors write nothing. Once the guards pass, the new PENDING request (caller, owner of the requested slot, both slot ids) is stored under the fresh id. It succeeds exactly when the guards pass and both slots are savable, and then answers 201 with the request, sets both slots to SWAP_PENDING, and changes nothing else. If the offered slot does not save, the answer is its validation error and only the request was written. If the requested slot does not save, the offered slot is also already SWAP_PENDING |
| SwapController.CreateSwapRequest | server/src/controllers/swapController.js:19-48 | the handler's reads, insert, in-place status assignments and validating saves, each failure ending the handler, leave exactly the tables and response of Propose. When both slots are savable, the handler keeps the swap invariant |
| SwapController.ProposeAllOrNothing | server/src/controllers/swapController.js:33-43 | createSwapRequest as one transaction: the same answer, the writes of Propose on success, and no write on any failure |
| SwapController.GetSwapRequests | server/src/controllers/swapController.js:54-57 | 200 with incoming = exactly the requests whose recipient is the caller and outgoing = exactly those whose requester is the caller. Each entry has its stored record and both slot references populated with the stored slot, or none for a slot that is gone |
| SwapController.Respond | server/src/controllers/swapController.js:66-100 | fails with 400 "Invalid swap request." exactly when the request is missing, the caller is not its recipient, or it is not PENDING, and then writes nothing. If a referenced slot is gone, it fails with 500 and the TypeError's message and writes nothing. It succeeds exactly when the request is decidable and both slots exist and are savable. Accept swaps the two slots' owners and makes both BUSY. Reject makes both SWAPPABLE and keeps owners. Either way the request becomes ACCEPTED or REJECTED, no other event changes, and the body holds the slots as they were read. If the offered slot does not save, its validation error is returned with no write. If the requested slot does not save, the offered slot has already been written with its decision and the request stays PENDING. `accept` is the truthiness of the body field, so a body without it rejects |
| SwapController.RespondToSwapRequest | server/src/controllers/swapController.js:64-104 | the handler's reads, the tempUserId exchange and the validating saves, each failure ending the handler, leave exactly the tables and response of Respond. When both slots are savable, the handler keeps the swap invariant |
| SwapController.RespondAllOrNothing | server/src/controllers/swapController.js:78-99 | respondToSwapRequest as one transaction: the same answer, the writes of Respond on success, and no write on any failure |
| SwapController.ReservedByExactlyOne | server/src/controllers/swapController.js:23-43 | under the invariant, a slot is SWAP_PENDING exactly when a pending request claims it, and no two pending requests claim it |
| SwapController.ReservingPreserves | server/src/controllers/swapController.js:33-43 | adding a pending request over two SWAPPABLE slots of its two parties and marking both SWAP_PENDING keeps the invariant |
| SwapController.DecidingPreserves | server/src/controllers/swapController.js:78-99 | resolving a pending request while both its slots leave SWAP_PENDING keeps the invariant, whoever owns them afterwards |
| SwapController.ProposePreservesInvariant | server/src/controllers/swapController.js:23-43 | createSwapRequest keeps the invariant when the two named slots, where they exist, are savable |
| SwapController.RespondPreservesInvariant | server/src/controllers/swapController.js:71-99 | respondToSwapRequest keeps the invariant when the request's two slots, where they exist, are savable |
| SwapController.ProposeAllOrNothingPreservesInvariant | server/src/controllers/swapController.js:33-43 | createSwapRequest as one transaction keeps the invariant whatever the stored titles |
| SwapController.RespondAllOrNothingPreservesInvariant | server/src/controllers/swapController.js:78-99 | respondToSwapRequest as one transaction keeps the invariant whatever the stored titles |
| SwapController.RespondAtMostOnce | server/src/controllers/swapController.js:71-99 | after a successful answer, a second answer to the same request, by anyone and with either decision, fails with 400 and writes nothing |
| SwapController.OnlyRecipientDecides | server/src/controllers/swapController.js:71-73 | a caller who is not the recipient gets 400 "Invalid swap request." and nothing changes |
| SwapController.NoDoubleReservation | server/src/controllers/swapController.js:23-27 | under the invariant, a slot claimed by a pending request is in nobody's swappable list, and a new request using it on either side fails with 400 and writes nothing |
| SwapController.ProposeThenRejectRestoresSlots | server/src/controllers/swapController.js:89-99 | a created request rejected by its recipient leaves every slot exactly as before the request, and the request REJECTED |
| SwapController.ProposeThenAcceptExchangesOwners | server/src/controllers/swapController.js:78-88 | a created request accepted by its recipient gives the offered slot to the recipient and the requested slot to the requester, both BUSY, with titles and times unchanged, and marks the request ACCEPTED |
| SwapController.InboxDisjoint | server/src/controllers/swapController.js:54-57 | when every request has two different parties, no request is both incoming and outgoing for a user |
| EventController.GetEvents | server/src/controllers/eventController.js:6-16 | 200 with exactly the caller's events, each as stored |
| EventController.StatusOrBusy | server/src/controllers/eventController.js:30 | an absent or empty status becomes BUSY; any other string is passed on |
| EventController.Create | server/src/controllers/eventController.js:23-41 | succeeds exactly when the body validates. Then it answers 201 and adds one event under the fresh id, owned by the caller, with the trimmed title, the given times, and the given status or BUSY; requests are untouched. Otherwise it answers 400 and writes nothing |
| EventController.CreateEvent | server/src/controllers/eventController.js:21-42 | building, validating and saving the document leaves exactly the tables and response of Create |
| EventController.CreateAsWired | server/src/app.js:10 | createEvent as the application is wired, with errorMiddleware ahead of the routes: it succeeds exactly when the body validates, and then does what Create does; an invalid body is answered 500 and nothing is written |
| EventController.WiringOnlyChangesValidationAnswer | server/src/app.js:10 | the wiring changes no write, and on a valid body no answer; an invalid body gets 500 where the intended handler gives 400 |
| EventController.MissingTitleFailsOnTitle | server/src/models/Event.js:13-17 | a body without a title fails validation on the title path alone, with "Path `title` is required." |
| EventController.MissingTitleAnswered500 | server/src/app.js:10 | a body without a title is answered 500 "Event validation failed: title: Path `title` is required." as wired, and 400 "Path `title` is required." by the intended handler |
| EventController.CreateDefaultsToBusy | server/src/controllers/eventController.js:30 | a valid body without a status, or with an empty one, creates a BUSY slot |
| EventController.ListingOfInsert | server/src/controllers/eventController.js:6-8 | storing an event of the caller's adds exactly that event to the caller's listing |
| EventController.CreatedIsListed | server/src/controllers/eventController.js:25-32 | after a create, the caller's listing is the old one plus the new event |
| EventController.ApplyPatch | server/src/controllers/eventController.js:50 | the update sets the given fields (title trimmed) and leaves absent ones and the owner unchanged |
| EventController.Update | server/src/controllers/eventController.js:48-56 | fails with 404 "Event not found or not yours" exactly when no event has that id and the caller as owner, and then writes nothing. Otherwise it answers 200 with the updated record and changes only that event. Requests are never touched |
| EventController.UpdateEvent | server/src/controllers/eventController.js:45-64 | the handler leaves exactly the tables and response of Update |
| EventController.UpdateIdempotent | server/src/controllers/eventController.js:48-52 | sending the same update twice has the same effect and response as sending it once |
| EventController.UpdateKeepsOwners | server/src/controllers/eventController.js:50 | an update never changes which events exist or who owns them |
| EventController.UpdateCanEmptyTitle | server/src/controllers/eventController.js:48-52 | updates run no validators, so a title of only white space is stored empty |
| EventController.Delete | server/src/controllers/eventController.js:69-78 | fails with 404 "Event not found or not yours" exactly when no event has that id and the caller as owner, and then writes nothing. Otherwise it removes only that event with 200 "Event deleted". Requests are never touched |
| EventController.DeleteEvent | server/src/controllers/eventController.js:67-82 | the handler leaves exactly the tables and response of Delete |
| EventController.DeleteOfInsert | server/src/controllers/eventController.js:69-77 | deleting an event just stored under a fresh id restores the previous tables |
| EventController.CreateThenDeleteRestores | server/src/controllers/eventController.js:69-77 | deleting an event just created undoes the creation |
| Interference.CreatePreservesSwapInvariant | server/src/controllers/eventController.js:25-32 | creating an event whose status is not SWAP_PENDING keeps the swap invariant |
| Interference.CreateCanReserveUnclaimed | server/src/controllers/eventController.js:25-32 | a client may create a slot as SWAP_PENDING, which breaks the invariant: no request claims that slot |
| Interference.OwnerCanReofferPromisedSlot | server/src/controllers/eventController.js:48-52 | the owner of a slot in a pending request can set it SWAPPABLE again. It is then listed to other users, and a second request (over savable slots) can claim it while the first is pending, so two pending requests share a slot |
| Interference.DeletedSlotStrandsRequest | server/src/controllers/eventController.js:69-74 | the owner can delete a slot in a pending request. The request stays PENDING, and every answer to it fails with 500 and writes nothing |
| Interference.EmptyTitlePatch | server/src/controllers/eventController.js:48-52 | the owner's update with an empty title succeeds and stores the slot with an empty title |
| Interference.EmptiedTitleLosesSlot | server/src/controllers/swapController.js:78-88 | when the recipient empties the title of the slot requested of them and then accepts, the answer is the title's validation error. The offered slot is already the recipient's and BUSY, the recipient keeps their own slot, the request stays PENDING, and the invariant is broken |
| Interference.EmptiedTitleStrandsProposal | server/src/controllers/swapController.js:33-43 | when the owner of a SWAPPABLE slot empties its title and another user proposes for it, the answer is the title's validation error. The request is stored PENDING over a slot that is still SWAPPABLE, the proposer's slot is SWAP_PENDING, and the invariant is broken |

## Findings

| source | as written | input that shows it | evidently intended | confidence | as-written member | corrected member |
|---|---|---|---|---|---|---|
| server/src/app.js:10 | errorMiddleware is installed before the routers. Express only passes an error to error handlers registered after the throwing route, so validation errors reach the catch-all at lines 35-37 and are answered 500 with Mongoose's combined message | POST /api/events with no title | 400 with the path messages joined by ", ", as errorMiddleware.js:11-13 writes it | not executed; follows from the order in which Express runs handlers | EventController.CreateAsWired, EventController.MissingTitleAnswered500 | EventController.Create |
| server/src/controllers/swapController.js:42-43, server/src/controllers/swapController.js:87-88 | the handlers write one document after another. `findOneAndUpdate` in eventController.js:48-52 runs no validators, so a slot can hold an empty title, and then its `save()` throws after earlier writes have been made | the recipient of a pending request sets the requested slot's title to "" and then accepts | a decision is made as a whole or not at all, so no request stays PENDING over a slot that has already changed hands | not executed; follows from Mongoose validating every path on `save()` | SwapController.Propose, SwapController.Respond, Interference.EmptiedTitleLosesSlot, Interference.EmptiedTitleStrandsProposal | SwapController.ProposeAllOrNothing, SwapController.RespondAllOrNothing, SwapController.ProposeAllOrNothingPreservesInvariant, SwapController.RespondAllOrNothingPreservesInvariant |

The rest of the model answers validation errors as errorMiddleware.js intends, including those raised by `save()` in the swap handlers. Errors without a status, such as the TypeError of a dangling slot, are answered 500 with their own message by either handler.

The swap handlers are modelled as written, with the partial writes. The all-or-nothing variants are the corrected definitions. The preservation lemmas for the handlers as written hold only where the slots involved can be saved. Events created through createEvent always can: creation trims the title and refuses it when empty.

## Left out

- Concurrency: no two handlers interleave. Within one handler the model keeps the order of the writes, and the writes made before a failing save (see Findings). Interleavings and races between requests are not modelled.
- Authentication, the users collection, and `populate` of user references (name and email): the caller id is a parameter, and a populated request carries only its two slots.
- `createdAt` defaults, the casting of dates and ObjectIds, and the `CastError` a malformed id or date raises: ids are natural numbers and times are integers.
- The order in which `find` returns documents: listings are maps keyed by id.
- EventController.Update: takes the new status as one of the three values. `findOneAndUpdate` runs no validators, so the source would also store a status string outside the enum. Explicit `null` fields are not modelled either. A status outside the enum would make a later `save()` fail on the status path too; EventModel.SaveErrors covers only the empty title the model can store. An absent field is left unchanged, which is how Mongoose 6 and later treat undefined keys in an update.
- EventModel.NewEvent: gives the validation messages in schema order (title, startTime, endTime, status). Mongoose's own order of `err.errors` is assumed to match.
- SwapController.Respond: the 500 message is the V8 `TypeError` text for reading `userId`, or setting `status`, on null. Other JavaScript engines word it differently.
- Express routing, JSON serialization, the client pages and the HTTP wrappers are not part of this model.
