/** The event catalog: the duplicate check of POST /create, the Event it
    builds, and the owner filter of GET /userEvents. */
module Catalog {
  import opened Records

  /** Outcome of POST /create: the "Event Taken" error, or the event posted. */
  datatype CreateOutcome = EventTaken | Posted(event: Event)

  /** Some event of the catalog already carries Eventbrite id `id`. */
  predicate Taken(events: seq<Event>, id: string)
  {
    exists i :: 0 <= i < |events| && events[i].eventbrite.id == id
  }

  /** No two events of the catalog carry the same Eventbrite id. */
  predicate UniqueIds(events: seq<Event>)
  {
    forall i, j :: 0 <= i < j < |events| ==> events[i].eventbrite.id != events[j].eventbrite.id
  }

  /** The duplicate check of /create: the Eventbrite ids of all events, kept
      where they equal the candidate's id. It is non-empty exactly when the
      id is taken. */
  function MatchingIds(events: seq<Event>, id: string): (ids: seq<string>)
    ensures |ids| <= |events|
    ensures forall x :: x in ids ==> x == id
    ensures |ids| > 0 <==> Taken(events, id)
  {
    if events == [] then []
    else
      var rest := MatchingIds(events[1..], id);
      assert Taken(events[1..], id) ==> Taken(events, id) by {
        if Taken(events[1..], id) {
          var i :| 0 <= i < |events[1..]| && events[1..][i].eventbrite.id == id;
          assert events[i + 1].eventbrite.id == id;
        }
      }
      if events[0].eventbrite.id == id then [events[0].eventbrite.id] + rest else rest
  }

  /** The Event /create builds: name and description from the descriptor,
      the requester as owner and sole promoter, the tiers from the body, and
      the descriptor itself embedded. */
  function NewEvent(account: Account, body: CreateBody): (e: Event)
    ensures e.owner == account.username && e.promoters == [account.fullName]
    ensures e.eventbrite == body.event && e.name == body.event.nameText && e.desc == body.event.descriptionText
    ensures e.gPoint == body.gPoint && e.gReward == body.gReward
    ensures e.sPoint == body.sPoint && e.sReward == body.sReward
    ensures e.bPoint == body.bPoint && e.bReward == body.bReward
  {
    Event(
      name := body.event.nameText,
      desc := body.event.descriptionText,
      promoters := [account.fullName],
      owner := account.username,
      gPoint := body.gPoint, gReward := body.gReward,
      sPoint := body.sPoint, sReward := body.sReward,
      bPoint := body.bPoint, bReward := body.bReward,
      eventbrite := body.event)
  }

  /** Appending an event whose id is not taken keeps the ids unique. */
  lemma AppendKeepsIdsUnique(events: seq<Event>, e: Event)
    requires UniqueIds(events) && !Taken(events, e.eventbrite.id)
    ensures UniqueIds(events + [e])
  {
  }

  /** GET /userEvents: the events whose owner is exactly `owner`, in catalog
      order. */
  function EventsOwnedBy(events: seq<Event>, owner: string): (r: seq<Event>)
    ensures |r| <= |events|
    ensures forall i :: 0 <= i < |r| ==> r[i].owner == owner
  {
    if events == [] then []
    else if events[0].owner == owner then [events[0]] + EventsOwnedBy(events[1..], owner)
      else EventsOwnedBy(events[1..], owner)
  }

  /** Each event of `owner` occurs in the answer as often as in the catalog,
      and no other event occurs. */
  lemma {:induction false} EventsOwnedByCounts(events: seq<Event>, owner: string, e: Event)
    ensures multiset(EventsOwnedBy(events, owner))[e] == if e.owner == owner then multiset(events)[e] else 0
  {
    if events != [] {
      assert events == [events[0]] + events[1..];
      EventsOwnedByCounts(events[1..], owner, e);
    }
  }

  /** Adding an event to the catalog adds it at the end of its owner's list
      and leaves every other owner's list as it was. */
  lemma {:induction false} EventsOwnedByAppend(events: seq<Event>, e: Event, owner: string)
    ensures EventsOwnedBy(events + [e], owner)
         == EventsOwnedBy(events, owner) + (if e.owner == owner then [e] else [])
  {
    if events != [] {
      var all := events + [e];
      var tail := if e.owner == owner then [e] else [];
      assert all[0] == events[0];
      assert all[1..] == events[1..] + [e];
      EventsOwnedByAppend(events[1..], e, owner);
      if events[0].owner == owner {
        calc {
          EventsOwnedBy(all, owner);
          [events[0]] + EventsOwnedBy(events[1..] + [e], owner);
          [events[0]] + (EventsOwnedBy(events[1..], owner) + tail);
          ([events[0]] + EventsOwnedBy(events[1..], owner)) + tail;
          EventsOwnedBy(events, owner) + tail;
        }
      }
    }
  }
}
