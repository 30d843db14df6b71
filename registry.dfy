/** The promo registry: referral links per (event, promoter). Inserts are
    blind (POST /promoter); the reads are GET /promoters/:event (listing),
    GET /promoter/:event (status of the requester) and the promoter filter
    that GET /scores starts from. */
module Registry {
  import opened Records
  import Directory

  /** One row of GET /promoters/:event: the promo projected to link and name. */
  datatype Listing = Listing(link: string, fullName: string)

  /** Answer of GET /promoter/:event: the requester's link for the event, or
      "not yet a promoter" with the requester's profile id. `NoProfile` is
      the case the handler does not cover: no promo and no profile, where it
      reads the id of a missing document. */
  datatype Status = Promoting(link: string) | NotPromoter(userid: string) | NoProfile

  /** `p` is the promo of `promoter` for `event`. */
  predicate IsFor(p: Promo, event: string, promoter: string)
  {
    p.event == event && p.promoter == promoter
  }

  /** The promo that POST /promoter stores: the body's event and link, the
      requester's username and full name (whatever else the body says). */
  function NewPromo(account: Account, body: PromoBody): (p: Promo)
    ensures IsFor(p, body.event, account.username)
    ensures p.link == body.link && p.fullName == account.fullName
  {
    Promo(body.event, body.link, account.username, account.fullName)
  }

  /** `find({promoter})`: the promos of `promoter`, in store order. */
  function PromosOf(promos: seq<Promo>, promoter: string): (r: seq<Promo>)
    ensures forall i :: 0 <= i < |r| ==> r[i].promoter == promoter
    ensures r == [] <==> forall i :: 0 <= i < |promos| ==> promos[i].promoter != promoter
  {
    if promos == [] then []
    else
      assert forall i :: 1 <= i < |promos| ==> promos[i] == promos[1..][i - 1];
      if promos[0].promoter == promoter then [promos[0]] + PromosOf(promos[1..], promoter)
      else PromosOf(promos[1..], promoter)
  }

  /** Each promo of `promoter` occurs in the answer as often as it is
      stored, and no other promo occurs. */
  lemma {:induction false} PromosOfCounts(promos: seq<Promo>, promoter: string, p: Promo)
    ensures multiset(PromosOf(promos, promoter))[p] == if p.promoter == promoter then multiset(promos)[p] else 0
  {
    if promos != [] {
      assert promos == [promos[0]] + promos[1..];
      PromosOfCounts(promos[1..], promoter, p);
    }
  }

  /** GET /promoters/:event: the promos of `event`, in store order, each
      projected to its link and full name; empty when the event has none. */
  function PromotersFor(promos: seq<Promo>, event: string): (r: seq<Listing>)
    ensures |r| <= |promos|
    ensures forall x :: x in r <==> exists p :: p in promos && p.event == event && x == Listing(p.link, p.fullName)
    ensures r == [] <==> forall i :: 0 <= i < |promos| ==> promos[i].event != event
  {
    if promos == [] then []
    else
      var rest := PromotersFor(promos[1..], event);
      assert forall p :: p in promos <==> p == promos[0] || p in promos[1..];
      if promos[0].event == event then [Listing(promos[0].link, promos[0].fullName)] + rest
      else rest
  }

  /** Storing a promo extends the listing of its event by its projection, at
      the end, and leaves every other event's listing as it was. */
  lemma {:induction false} PromotersForAppend(promos: seq<Promo>, p: Promo, event: string)
    ensures PromotersFor(promos + [p], event)
         == PromotersFor(promos, event) + (if p.event == event then [Listing(p.link, p.fullName)] else [])
  {
    if promos != [] {
      assert (promos + [p])[1..] == promos[1..] + [p];
      PromotersForAppend(promos[1..], p, event);
    }
  }

  /** `findOne({event, promoter})`: the first promo of that pair, if any. */
  function FindPromo(promos: seq<Promo>, event: string, promoter: string): (r: Option<Promo>)
    ensures r.None? <==> forall i :: 0 <= i < |promos| ==> !IsFor(promos[i], event, promoter)
    ensures r.Some? ==> r.value in promos && IsFor(r.value, event, promoter)
  {
    if promos == [] then None
    else if IsFor(promos[0], event, promoter) then Some(promos[0])
    else
      var r := FindPromo(promos[1..], event, promoter);
      assert forall i :: 1 <= i < |promos| ==> promos[i] == promos[1..][i - 1];
      r
  }

  /** The lookup returns the promo at the first index that matches. */
  lemma {:induction false} FindPromoAt(promos: seq<Promo>, event: string, promoter: string, j: nat)
    requires j < |promos| && IsFor(promos[j], event, promoter)
    requires forall k :: 0 <= k < j ==> !IsFor(promos[k], event, promoter)
    ensures FindPromo(promos, event, promoter) == Some(promos[j])
  {
    if j > 0 {
      FindPromoAt(promos[1..], event, promoter, j - 1);
    }
  }

  /** The lookup is stable under the blind insert: once a pair has a promo,
      storing another promo (even one for the same pair) does not change
      the answer; before that, the answer becomes the new promo exactly when
      it is for the pair. */
  lemma {:induction false} FindPromoAppend(promos: seq<Promo>, p: Promo, event: string, promoter: string)
    ensures FindPromo(promos + [p], event, promoter)
         == match FindPromo(promos, event, promoter)
            case Some(q) => Some(q)
            case None => if IsFor(p, event, promoter) then Some(p) else None
  {
    if promos != [] {
      assert (promos + [p])[1..] == promos[1..] + [p];
      FindPromoAppend(promos[1..], p, event, promoter);
    }
  }

  /** The blind insert does not refuse a second promo for a pair: the number
      of promos of the pair grows by one with each insert. */
  lemma {:induction false} BlindInsertCounts(promos: seq<Promo>, p: Promo)
    ensures CountFor(promos + [p], p.event, p.promoter) == CountFor(promos, p.event, p.promoter) + 1
  {
    if promos != [] {
      assert (promos + [p])[1..] == promos[1..] + [p];
      BlindInsertCounts(promos[1..], p);
    }
  }

  /** How many promos are stored for the pair (event, promoter). */
  function CountFor(promos: seq<Promo>, event: string, promoter: string): (n: nat)
    ensures n <= |promos|
    ensures n == 0 <==> FindPromo(promos, event, promoter).None?
  {
    if promos == [] then 0
    else (if IsFor(promos[0], event, promoter) then 1 else 0) + CountFor(promos[1..], event, promoter)
  }

  /** GET /promoter/:event for `username`: the link of the first promo of the
      pair; otherwise the id of the first profile with that username. */
  function StatusOf(promos: seq<Promo>, users: seq<User>, event: string, username: string): (r: Status)
    ensures r.Promoting? <==> FindPromo(promos, event, username).Some?
    ensures r.Promoting? ==> exists p :: p in promos && IsFor(p, event, username) && p.link == r.link
    ensures r.NotPromoter? ==> exists u :: u in users && u.username == username && u.id == r.userid
    ensures r.NoProfile? <==> FindPromo(promos, event, username).None? && !Directory.Known(users, username)
  {
    match FindPromo(promos, event, username)
    case Some(p) => Promoting(p.link)
    case None =>
      match Directory.FindUser(users, username)
      case Some(u) => NotPromoter(u.id)
      case None => NoProfile
  }

  /** After the requester stores a promo for `event`, their status for it is
      that promo's link, unless an earlier promo for the same pair exists,
      whose link is kept. */
  lemma StatusAfterInsert(promos: seq<Promo>, users: seq<User>, account: Account, body: PromoBody)
    ensures StatusOf(promos + [NewPromo(account, body)], users, body.event, account.username)
         == Promoting(
              match FindPromo(promos, body.event, account.username)
              case Some(q) => q.link
              case None => body.link)
  {
    FindPromoAppend(promos, NewPromo(account, body), body.event, account.username);
  }
}
