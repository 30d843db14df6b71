# Party Parrot record-store rules in Dafny

Party Parrot is a promotional-events platform. Organizers import Eventbrite
events and attach three reward tiers (gold, silver, bronze) to each.
Promoters register one referral link per event. The Express server
`src/server/server.js` keeps three MongoDB collections: Events, Promos and
Users. Its route handlers carry a handful of record-store rules:

- `POST /create` refuses an Eventbrite id that an event already carries
  ("Event Taken"). Otherwise it stores a new event owned and first promoted by
  the requester.
- `GET /userEvents` filters the events by owner.
- `GET /events` returns every event. As a side effect it saves the
  requester's profile, but only when no profile with that username exists
  (first write wins).
- `GET /userProfile` returns the profiles with the requester's username.
- `POST /promoter` stores a promo `{event, link, promoter, fullName}` without
  any uniqueness check.
- `GET /promoters/:event` lists an event's promos as `{link, fullName}`.
- `GET /promoter/:event` returns the requester's link for the event, or
  `{userid, link: null}` when they have no promo for it.
- `GET /scores` joins the requester's promos with all events. For each event,
  in order, the first promo whose `event` is the event's Eventbrite id yields
  one record `{link, eventbrite, gPoint, sPoint, bPoint}`.

The model keeps the three collections as sequences in a class `Server.Store`.
A Mongo `find` is modelled as an order-preserving filter of a sequence, and a
`findOne` as the first match in sequence order; the sequence order is
insertion order (see "## Left out"). Handlers that write, and the `/scores` loop,
are methods of `Store`. The read-only queries are functions over the
sequences, in the modules `Catalog`, `Directory` and `Registry`. The
`/scores` fold is specified by `Scoring.ScoresOf`. `Store.Scores` runs the
source's loop: an outer loop over the events and an inner scan that stops at
the first matching promo. It is proved equal to `ScoresOf`, and the lemmas of
`Scoring` prove what the scorecard means.

Files: `records.dfy` (the record types), `catalog.dfy`, `directory.dfy`,
`registry.dfy`, `scoring.dfy` and `server.dfy` (the store and one client
scenario, `Server.CreateThenScore`).

Three points of the code that its comments or names might suggest otherwise:

- The comment at `src/server/server.js:145` speaks of a "unique link" per
  event and promoter, but `POST /promoter` inserts without looking for an
  earlier promo of the pair (`Registry.BlindInsertCounts`).
- `POST /create` answers a taken Eventbrite id with status 500 and
  "Event Taken" (`Catalog.EventTaken`).
- `GET /userProfile` answers the array of all profiles with the username
  (`Directory.UsersNamed`), not a single profile.

## Model

| member | source | states |
|---|---|---|
| Catalog.MatchingIds | src/server/server.js:46-51 | the mapped and filtered id list has only the candidate id in it, and it is non-empty exactly when some stored event carries that Eventbrite id |
| Catalog.AppendKeepsIdsUnique | src/server/server.js:46-66 | storing an event whose id is not taken keeps Eventbrite ids unique |
| Catalog.NewEvent | src/server/server.js:54-66 | the new event is owned by the requester, lists the requester's full name as its sole promoter, embeds the descriptor with its name and description texts, and carries the body's six tier fields |
| Catalog.EventsOwnedBy | src/server/server.js:107-112 | every event answered is owned by the requester, and the answer is no longer than the catalog |
| Catalog.EventsOwnedByCounts | src/server/server.js:107-112 | each event owned by the requester occurs in the answer as often as in the catalog; other events do not occur |
| Catalog.EventsOwnedByAppend | src/server/server.js:107-112 | a newly stored event goes to the end of its owner's list; every other owner's list is unchanged (the filter keeps store order) |
| Directory.FindUser | src/server/server.js:93 | the lookup finds nothing exactly when no profile has the username; otherwise it finds a stored profile with that username |
| Directory.FindUserAt | src/server/server.js:93 | the lookup returns the profile at the first index with the username |
| Directory.UsersNamed | src/server/server.js:115-120 | every profile answered has the username, and the answer is empty exactly when the username is unknown |
| Directory.UsersNamedCounts | src/server/server.js:115-120 | each profile with the username occurs in the answer as often as stored; other profiles do not occur |
| Directory.Candidate | src/server/server.js:85-91 | the candidate profile carries the given document id, the requester's username, given name, surname and full name, and the account's creation date |
| Directory.Upsert | src/server/server.js:92-102 | after the upsert the username is known, every earlier profile stays where it was, and at most one profile is added |
| Directory.UpsertEffect | src/server/server.js:92-102 | a known username leaves the profiles unchanged; an unknown one appends exactly the candidate |
| Directory.UpsertIdempotent | src/server/server.js:92-102 | a second upsert for the same username changes nothing, whatever the second candidate holds |
| Directory.UpsertKeepsUnique | src/server/server.js:92-102 | the upsert keeps usernames unique |
| Directory.UpsertFirstWins | src/server/server.js:85-102 | after the upsert, the lookup by username gives the earlier profile if there was one, else the candidate |
| Directory.ProfileAfterUpsert | src/server/server.js:92-119 | with unique usernames, after the upsert the profile query answers exactly one profile, the one the lookup finds |
| Directory.SingleNamed | src/server/server.js:115-119 | with unique usernames, the profile query for a known username answers exactly its one profile |
| Registry.PromosOf | src/server/server.js:194 | every promo answered is the promoter's, and the answer is empty exactly when the promoter has no promo |
| Registry.PromosOfCounts | src/server/server.js:194 | each promo of the promoter occurs in the answer as often as stored; other promos do not occur |
| Registry.NewPromo | src/server/server.js:148-150 | the stored promo is for the body's event and the requester's username, with the body's link and the requester's full name |
| Registry.PromotersFor | src/server/server.js:133-141 | the listing holds exactly the `{link, fullName}` projections of the event's promos, is no longer than the store, and is empty exactly when the event has no promo |
| Registry.PromotersForAppend | src/server/server.js:133-159 | a stored promo adds its projection at the end of its event's listing; other listings are unchanged |
| Registry.FindPromo | src/server/server.js:168 | the lookup finds nothing exactly when no promo matches the (event, promoter) pair; otherwise it finds a stored matching promo |
| Registry.FindPromoAt | src/server/server.js:168 | the lookup returns the promo at the first matching index |
| Registry.FindPromoAppend | src/server/server.js:147-187 | a blind insert never changes an existing answer for a pair; a pair without a promo gets the new promo exactly when the promo is for it |
| Registry.BlindInsertCounts | src/server/server.js:147-159 | every insert raises the pair's promo count by one, even when the pair already has a promo |
| Registry.StatusOf | src/server/server.js:167-187 | the answer is a link exactly when a promo of the pair exists, and that link is a matching promo's; otherwise it is the id of a profile with the username; with neither, it is `NoProfile` |
| Registry.StatusAfterInsert | src/server/server.js:147-187 | after the requester stores a promo for an event, their status is a link: the earlier promo's link if one existed, else the new one |
| Scoring.FirstLink | src/server/server.js:205-217 | the inner scan finds no link exactly when none of the promoter's promos is for the event |
| Scoring.FirstLinkAt | src/server/server.js:205-217 | the scan returns the link of the first promo for the event |
| Scoring.FirstLinkIsLookup | src/server/server.js:194-206 | scanning the promoter's promos gives the same link as the (event, promoter) lookup of `/promoter/:event` |
| Scoring.ScoreOf | src/server/server.js:209-215 | a record carries the promo's link, the event's descriptor and the event's three tier points |
| Scoring.Contribution | src/server/server.js:204-218 | an event contributes at most one record, and exactly one when some of the promoter's promos is for it |
| Scoring.ScoresOf | src/server/server.js:204-219 | the scorecard has at most one record per event |
| Scoring.ScoresFor | src/server/server.js:193-219 | the scorecard of a promoter, folded over that promoter's promos, has at most one record per event |
| Scoring.ScoresAppend | src/server/server.js:204-219 | the scorecard of two catalogs joined is the two scorecards joined, so records follow catalog order |
| Scoring.NoPromosNoScores | src/server/server.js:192-219 | without promos the scorecard is empty, whatever the events |
| Scoring.ScoresForStranger | src/server/server.js:192-219 | a promoter with no stored promo gets an empty scorecard even when events exist |
| Scoring.ScoreRecordSource | src/server/server.js:204-216 | each record carries some event's descriptor and three tier points, with the link of the first promo for that event |
| Scoring.ScoreLinkIsPromoterLink | src/server/server.js:194-215 | each record's link is the link of the first promo of that promoter for the record's event; its points are an event's |
| Scoring.ScoresMention | src/server/server.js:204-218 | an Eventbrite id appears in the scorecard exactly when some event carries it and some of the promoter's promos is for it |
| Scoring.ScoresInEventOrder | src/server/server.js:204-219 | of two records, the earlier one comes from an earlier event |
| Scoring.ScoresPermutation | src/server/server.js:199-219 | permuting the events permutes the records: the scorecard as a multiset does not depend on catalog order |
| Scoring.FirstLinkReorder | src/server/server.js:205-217 | when no two of the promoter's promos are for the same event, the scan finds the same link whatever the order of the promos |
| Scoring.ScoresPromoOrder | src/server/server.js:194-219 | when no two of the promoter's promos are for the same event, permuting the promos leaves the scorecard unchanged |
| Scoring.PromoOrderMatters | src/server/server.js:147-159 | two promos of one promoter for the same event, which the blind insert allows, give scorecards with different links depending on their order |
| Server.Store.CreateEvent | src/server/server.js:41-74 | a taken id gives "Event Taken" and changes nothing; otherwise exactly the new event is appended, with the requester as owner and sole promoter, the body's six tier fields and the descriptor; promos and users are unchanged; unique ids stay unique |
| Server.Store.ListEvents | src/server/server.js:77-104 | answers every stored event and changes no event or promo; the profiles become the first-write-wins upsert of the candidate: unchanged for a known username, one more otherwise; the username is then known; unique usernames stay unique, and with them the profile query answers exactly the one profile the lookup finds |
| Server.Store.AddPromoter | src/server/server.js:147-160 | appends exactly the promo of the body's event and link under the requester's username and full name; the pair's count grows by one; nothing else changes |
| Server.Store.Scores | src/server/server.js:193-225 | the loop over the events answers exactly `ScoresFor` of the stored promos and events |
| Server.AddScore | src/server/server.js:204-218 | the step of the fold, with its scan that stops at the first match, adds exactly the event's `Contribution` to the records so far |

## Left out

- HTTP transport is not modelled: Express setup, static files, `index.html`
  fallback, `/parrot`, `/secrets`, status codes and response bodies. Only
  "taken" and "posted" are distinguished.
- Stormpath authentication is not modelled. The requester is a plain
  `Account` input.
- Eventbrite OAuth (`/authentication`) is a network client and is not
  modelled.
- The MongoDB connection, callbacks, asynchrony and store failures (every
  `err` branch) are not modelled. Requests are handled one at a time, so the
  check-then-insert race of `/create` and of the profile upsert is not
  captured.
- `memberSince`: the `moment` parsing of `createdAt.slice(0,10)` is not
  modelled. The account's `createdAt` is stored as given.
- Document ids: the store assigns ids to new documents, which is outside the
  model. A new profile's id is a parameter (`newId`). Event and promo ids are
  not modelled, since no rule reads them.
- Eventbrite ids and promo `event` fields are strings, compared with `===`.
  The case of a missing id (`undefined === undefined`) is not modelled.
- Tier points are integers. JavaScript numbers may be fractional; no rule
  computes with them.
- The event descriptor keeps only the fields the server reads: id, name text
  and description text. A descriptor without `name` or `description` would
  make `/create` throw; that case is not modelled.
- `GET /promoter/:event` with no promo and no profile reads `_id` of `null`
  and throws. The model answers `Registry.NoProfile` for that case.
- `POST /promoter` sets status 200 but never sends a response. Responses are
  not modelled.
- Registry.PromotersFor: its ensures give membership, a length bound and
  emptiness, not the exact order and multiplicity of the listing. Those follow
  from `Registry.PromotersForAppend` for listings built by inserts.
- Result order: MongoDB returns the documents of an unsorted `find` or
  `findOne` in natural order, which is not guaranteed to be insertion order.
  The model fixes it to insertion order. The lemmas that speak of positions
  or of the first match describe that choice: `Directory.FindUserAt`,
  `Registry.FindPromoAt`, `Registry.StatusAfterInsert`,
  `Scoring.FirstLinkIsLookup`, `Catalog.EventsOwnedByAppend`,
  `Registry.PromotersForAppend` and `Scoring.ScoresInEventOrder`.
- Scoring.ScoresPermutation: covers the order of the events only. The order of
  the promos leaves the scorecard unchanged only when no two of the
  promoter's promos share an event (`Scoring.ScoresPromoOrder`). The blind
  insert allows two such promos, and then a record's link depends on their
  order (`Scoring.PromoOrderMatters`).
