/** The record store behind the server's handlers: the Events, Promos and
    Users collections, and the handlers that write them or, for /scores,
    run a loop over them. One request is handled at a time. */
module Server {
  import opened Records
  import Catalog
  import Directory
  import Registry
  import Scoring

  class Store {
    var events: seq<Event>
    var promos: seq<Promo>
    var users: seq<User>

    /** What the handlers keep when every write goes through them:
        Eventbrite ids and usernames are unique. With it, GET /userProfile
        answers one profile after GET /events (see `ListEvents`). */
    ghost predicate Valid()
      reads this
    {
      Catalog.UniqueIds(events) && Directory.UniqueUsernames(users)
    }

    constructor ()
      ensures events == [] && promos == [] && users == []
      ensures Valid()
    {
      events, promos, users := [], [], [];
    }

    /** POST /create: refuse an Eventbrite id that some event already
        carries; otherwise store the new event, owned and first promoted by
        the requester, with the tiers of the body. */
    method CreateEvent(account: Account, body: CreateBody) returns (r: Catalog.CreateOutcome)
      modifies this
      ensures promos == old(promos) && users == old(users)
      ensures Catalog.Taken(old(events), body.event.id) ==> r == Catalog.EventTaken && events == old(events)
      ensures !Catalog.Taken(old(events), body.event.id) ==> r.Posted? && events == old(events) + [r.event]
      ensures r.Posted? ==> && r.event.owner == account.username
                            && r.event.promoters == [account.fullName]
                            && r.event.name == body.event.nameText
                            && r.event.desc == body.event.descriptionText
                            && r.event.gPoint == body.gPoint && r.event.gReward == body.gReward
                            && r.event.sPoint == body.sPoint && r.event.sReward == body.sReward
                            && r.event.bPoint == body.bPoint && r.event.bReward == body.bReward
                            && r.event.eventbrite == body.event
      ensures old(Valid()) ==> Valid()
    {
      var ids := Catalog.MatchingIds(events, body.event.id);
      if |ids| > 0 {
        r := Catalog.EventTaken;
      } else {
        var event := Catalog.NewEvent(account, body);
        if Catalog.UniqueIds(events) {
          Catalog.AppendKeepsIdsUnique(events, event);
        }
        events := events + [event];
        r := Catalog.Posted(event);
      }
    }

    /** GET /events: answer every event, and save the requester's profile
        unless one with that username exists. `newId` is the document id the
        store gives the candidate profile. */
    method ListEvents(account: Account, newId: string) returns (all: seq<Event>)
      modifies this
      ensures all == old(events)
      ensures events == old(events) && promos == old(promos)
      ensures users == Directory.Upsert(old(users), Directory.Candidate(account, newId))
      ensures Directory.Known(old(users), account.username) ==> users == old(users)
      ensures !Directory.Known(old(users), account.username) ==> |users| == |old(users)| + 1
      ensures old(Valid()) ==> Valid()
      ensures Directory.Known(users, account.username)
      ensures old(Valid()) ==> (Directory.UsersNamed(users, account.username)
                                == [Directory.FindUser(users, account.username).value])
    {
      all := events;
      var candidate := Directory.Candidate(account, newId);
      var existing := Directory.FindUser(users, account.username);
      if existing.None? {
        users := users + [candidate];
      }
      Directory.UpsertFirstWins(old(users), candidate);
      if Directory.UniqueUsernames(old(users)) {
        Directory.UpsertKeepsUnique(old(users), candidate);
        Directory.ProfileAfterUpsert(old(users), candidate);
      }
    }

    /** POST /promoter: store the body's event and link under the
        requester's username and full name, without looking for an earlier
        promo of the same pair. */
    method AddPromoter(account: Account, body: PromoBody)
      modifies this
      ensures promos == old(promos) + [Registry.NewPromo(account, body)]
      ensures events == old(events) && users == old(users)
      ensures Registry.CountFor(promos, body.event, account.username)
           == Registry.CountFor(old(promos), body.event, account.username) + 1
      ensures old(Valid()) ==> Valid()
    {
      Registry.BlindInsertCounts(promos, Registry.NewPromo(account, body));
      promos := promos + [Registry.NewPromo(account, body)];
    }

    /** GET /scores: over the requester's promos, fold the events in order;
        for each, scan the promos for the first whose event is the event's
        Eventbrite id, and on a match add one record. */
    method Scores(account: Account) returns (results: seq<Scoring.Score>)
      ensures results == Scoring.ScoresFor(promos, events, account.username)
    {
      var mine := Registry.PromosOf(promos, account.username);
      var catalog := events;
      results := [];
      var i := 0;
      while i < |catalog|
        invariant 0 <= i <= |catalog|
        invariant results == Scoring.ScoresOf(mine, catalog[..i])
      {
        results := AddScore(mine, results, catalog[i]);
        assert catalog[..i + 1] == catalog[..i] + [catalog[i]];
        Scoring.ScoresSnoc(mine, catalog[..i], catalog[i]);
        i := i + 1;
      }
      assert catalog[..i] == catalog;
    }
  }

  /** The step of the /scores fold: scan the promos for the first whose
      event is the event's Eventbrite id; on a match add one record to
      `results`, otherwise return them as they were. */
  method AddScore(mine: seq<Promo>, results: seq<Scoring.Score>, event: Event) returns (next: seq<Scoring.Score>)
    ensures next == results + Scoring.Contribution(mine, event)
  {
    var id := event.eventbrite.id;
    var j := 0;
    while j < |mine| && mine[j].event != id
      invariant 0 <= j <= |mine|
      invariant forall k :: 0 <= k < j ==> mine[k].event != id
    {
      j := j + 1;
    }
    Scoring.FirstLinkAt(mine, id, j);
    if j < |mine| {
      next := results + [Scoring.ScoreOf(mine[j].link, event)];
    } else {
      next := results;
    }
  }

  /** A client of the store: an event created twice is refused the second
      time, and a promoter's link for it shows up in their scorecard and in
      nobody else's. */
  method CreateThenScore()
  {
    var store := new Store();
    var alice := Account("alice", "Alice", "Liddell", "Alice Liddell", "2016-09-01");
    var bob := Account("bob", "Bob", "Stone", "Bob Stone", "2016-09-02");
    var e1 := Descriptor("E1", "Launch", "Release party");
    var body := CreateBody(e1, 10, "badge", 5, "sticker", 1, "shoutout");

    var first := store.CreateEvent(alice, body);
    assert first.Posted? && store.events == [first.event];
    var again := store.CreateEvent(alice, body);
    assert store.events[0].eventbrite.id == "E1";
    assert again == Catalog.EventTaken && |store.events| == 1;

    store.AddPromoter(alice, PromoBody("E1", "bit.ly/x"));
    var promo := Registry.NewPromo(alice, PromoBody("E1", "bit.ly/x"));
    assert store.promos == [promo];

    var aliceScores := store.Scores(alice);
    assert Registry.PromosOf([promo], "alice") == [promo];
    assert Scoring.FirstLink([promo], "E1") == Some("bit.ly/x");
    assert [first.event][..0] == [];
    assert aliceScores == [Scoring.Score("bit.ly/x", e1, 10, 5, 1)];

    var bobScores := store.Scores(bob);
    Scoring.ScoresForStranger(store.promos, store.events, "bob");
    assert bobScores == [];
  }
}
