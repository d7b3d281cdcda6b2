/** A run of the handlers on a fresh store: two users each publish a SWAPPABLE
    slot, one proposes a swap, the other accepts it, and a second answer to the
    same request is refused. */
module Walkthrough {
  import opened Wrappers
  import opened EventModel
  import opened SwapRequestModel
  import opened Database
  import opened Http
  import opened SwapController
  import opened EventController

  method AcceptOnce(alice: UserId, bob: UserId, input: EventInput)
    requires alice != bob
    requires Acceptable(input) && input.status == Some("SWAPPABLE")
  {
    var db := new Db();
    var a := CreateEvent(db, alice, input);
    var b := CreateEvent(db, bob, input);
    var aId, bId := a.body.id, b.body.id;
    assert Savable(db.events[aId]) && Savable(db.events[bId]);
    assert ParseStatus("SWAPPABLE") == Some(Swappable);
    assert Offerable(db.events, alice, aId) && Requestable(db.events, bId) && db.events[bId].userId == bob;

    var proposed := CreateSwapRequest(db, alice, aId, bId);
    assert proposed.Ok?;
    var rid := proposed.body.id;
    assert Decidable(db.Snapshot(), bob, rid);
    assert db.requests[rid].mySlotId == aId && db.requests[rid].theirSlotId == bId;
    assert aId in db.events && bId in db.events;
    assert Savable(db.events[aId]) && Savable(db.events[bId]);

    var accepted := RespondToSwapRequest(db, bob, rid, true);
    assert accepted.Ok?;
    assert db.events[aId].userId == bob && db.events[bId].userId == alice;

    var again := RespondToSwapRequest(db, bob, rid, false);
    assert again == Fail(400, InvalidRequest);
  }
}
