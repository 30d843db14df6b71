/** GET /scores: the promoter's promos joined with the event catalog. For
    each event, in catalog order, the first of the promoter's promos whose
    event is that event's Eventbrite id yields one score record; an event
    without such a promo yields nothing. */
module Scoring {
  import opened Records
  import Catalog
  import Registry

  /** One record of the scorecard: the promoter's link, the event's
      Eventbrite descriptor and its three tier point values. */
  datatype Score = Score(link: string, eventbrite: Descriptor, gPoint: int, sPoint: int, bPoint: int)

  /** The record an event yields with link `link`. */
  function ScoreOf(link: string, e: Event): (s: Score)
    ensures s.link == link && s.eventbrite == e.eventbrite
    ensures s.gPoint == e.gPoint && s.sPoint == e.sPoint && s.bPoint == e.bPoint
  {
    Score(link, e.eventbrite, e.gPoint, e.sPoint, e.bPoint)
  }

  /** Some of `mine` is for Eventbrite id `id`. */
  predicate Promoted(mine: seq<Promo>, id: string)
  {
    exists i :: 0 <= i < |mine| && mine[i].event == id
  }

  /** The inner scan: the link of the first of `mine` whose event is `id`. */
  function FirstLink(mine: seq<Promo>, id: string): (r: Option<string>)
    ensures r.None? <==> !Promoted(mine, id)
  {
    if mine == [] then None
    else if mine[0].event == id then Some(mine[0].link)
    else
      assert forall i :: 1 <= i < |mine| ==> mine[i] == mine[1..][i - 1];
      FirstLink(mine[1..], id)
  }

  /** The scan stops at the first index that matches. */
  lemma {:induction false} FirstLinkAt(mine: seq<Promo>, id: string, j: nat)
    requires j <= |mine|
    requires forall k :: 0 <= k < j ==> mine[k].event != id
    requires j < |mine| ==> mine[j].event == id
    ensures FirstLink(mine, id) == if j < |mine| then Some(mine[j].link) else None
  {
    if mine != [] && mine[0].event != id {
      FirstLinkAt(mine[1..], id, j - 1);
    }
  }

  /** Over the promoter's own promos, the scan finds the link that
      GET /promoter/:event reports for the same pair. */
  lemma {:induction false} FirstLinkIsLookup(promos: seq<Promo>, promoter: string, id: string)
    ensures FirstLink(Registry.PromosOf(promos, promoter), id)
         == match Registry.FindPromo(promos, id, promoter)
            case Some(p) => Some(p.link)
            case None => None
  {
    if promos != [] {
      var mine := Registry.PromosOf(promos, promoter);
      var rest := Registry.PromosOf(promos[1..], promoter);
      FirstLinkIsLookup(promos[1..], promoter, id);
      if promos[0].promoter == promoter {
        assert mine == [promos[0]] + rest;
        assert mine[1..] == rest;
      }
    }
  }

  /** What one event contributes: one record if the scan finds a link,
      nothing otherwise. */
  function Contribution(mine: seq<Promo>, e: Event): (r: seq<Score>)
    ensures |r| <= 1
    ensures |r| == 1 <==> Promoted(mine, e.eventbrite.id)
  {
    match FirstLink(mine, e.eventbrite.id)
    case Some(link) => [ScoreOf(link, e)]
    case None => []
  }

  /** The fold over the catalog: each event's contribution, in order. */
  function ScoresOf(mine: seq<Promo>, events: seq<Event>): (r: seq<Score>)
    ensures |r| <= |events|
  {
    if events == [] then []
    else ScoresOf(mine, events[..|events| - 1]) + Contribution(mine, events[|events| - 1])
  }

  /** One more event at the end of the catalog adds its contribution at the
      end of the scorecard. */
  lemma ScoresSnoc(mine: seq<Promo>, events: seq<Event>, e: Event)
    ensures ScoresOf(mine, events + [e]) == ScoresOf(mine, events) + Contribution(mine, e)
  {
  }

  /** GET /scores for `promoter`: the fold over that promoter's promos, at
      most one record per event. */
  function ScoresFor(promos: seq<Promo>, events: seq<Event>, promoter: string): (r: seq<Score>)
    ensures |r| <= |events|
  {
    ScoresOf(Registry.PromosOf(promos, promoter), events)
  }

  /** The scorecard of a catalog split in two is the two scorecards one
      after the other: records come in catalog order. */
  lemma {:induction false} ScoresAppend(mine: seq<Promo>, front: seq<Event>, back: seq<Event>)
    ensures ScoresOf(mine, front + back) == ScoresOf(mine, front) + ScoresOf(mine, back)
  {
    if back == [] {
      assert front + back == front;
    } else {
      var n := |back| - 1;
      var init, last := back[..n], back[n];
      assert back == init + [last];
      assert front + back == (front + init) + [last];
      ScoresSnoc(mine, front + init, last);
      ScoresSnoc(mine, init, last);
      ScoresAppend(mine, front, init);
      var a, b, c := ScoresOf(mine, front), ScoresOf(mine, init), Contribution(mine, last);
      calc {
        ScoresOf(mine, front + back);
        ScoresOf(mine, (front + init) + [last]);
        (a + b) + c;
        { assert (a + b) + c == a + (b + c); }
        a + (b + c);
        ScoresOf(mine, front) + ScoresOf(mine, back);
      }
    }
  }

  /** A promoter without promos scores nothing, whatever the catalog holds. */
  lemma {:induction false} NoPromosNoScores(mine: seq<Promo>, events: seq<Event>)
    requires mine == []
    ensures ScoresOf(mine, events) == []
  {
    if events != [] {
      NoPromosNoScores(mine, events[..|events| - 1]);
    }
  }

  /** The same, stated for the whole store: a promoter who stored no promo
      gets an empty scorecard. */
  lemma ScoresForStranger(promos: seq<Promo>, events: seq<Event>, promoter: string)
    requires forall i :: 0 <= i < |promos| ==> promos[i].promoter != promoter
    ensures ScoresFor(promos, events, promoter) == []
  {
    NoPromosNoScores(Registry.PromosOf(promos, promoter), events);
  }

  /** Every record comes from some event of the catalog: it carries that
      event's descriptor and tier points, and the link of the first of the
      promoter's promos for that event. */
  lemma {:induction false} ScoreRecordSource(mine: seq<Promo>, events: seq<Event>, k: nat)
    requires k < |ScoresOf(mine, events)|
    ensures exists j :: (0 <= j < |events|
      && ScoresOf(mine, events)[k] == ScoreOf(ScoresOf(mine, events)[k].link, events[j])
      && FirstLink(mine, events[j].eventbrite.id) == Some(ScoresOf(mine, events)[k].link))
  {
    var n := |events| - 1;
    var prefix := ScoresOf(mine, events[..n]);
    if k < |prefix| {
      ScoreRecordSource(mine, events[..n], k);
      var j :| 0 <= j < n
        && prefix[k] == ScoreOf(prefix[k].link, events[..n][j])
        && FirstLink(mine, events[..n][j].eventbrite.id) == Some(prefix[k].link);
      assert events[..n][j] == events[j];
    } else {
      assert ScoresOf(mine, events)[k] == Contribution(mine, events[n])[0];
    }
  }

  /** In the scorecard of `promoter`, each record's link is the one
      GET /promoter/:event reports for that promoter and the record's event,
      and its points are those of an event of the catalog with that
      descriptor. */
  lemma ScoreLinkIsPromoterLink(promos: seq<Promo>, events: seq<Event>, promoter: string, k: nat)
    requires k < |ScoresFor(promos, events, promoter)|
    ensures var s := ScoresFor(promos, events, promoter)[k];
      && Registry.FindPromo(promos, s.eventbrite.id, promoter).Some?
      && Registry.FindPromo(promos, s.eventbrite.id, promoter).value.link == s.link
      && exists j :: 0 <= j < |events| && s == ScoreOf(s.link, events[j])
  {
    var mine := Registry.PromosOf(promos, promoter);
    ScoreRecordSource(mine, events, k);
    var s := ScoresOf(mine, events)[k];
    var j :| 0 <= j < |events| && s == ScoreOf(s.link, events[j])
      && FirstLink(mine, events[j].eventbrite.id) == Some(s.link);
    FirstLinkIsLookup(promos, promoter, s.eventbrite.id);
  }

  /** Some record of `r` carries Eventbrite id `id`. */
  predicate Mentions(r: seq<Score>, id: string)
  {
    exists k :: 0 <= k < |r| && r[k].eventbrite.id == id
  }

  /** An Eventbrite id appears in the scorecard exactly when some event of
      the catalog carries it and some of the promoter's promos is for it. */
  lemma {:induction false} ScoresMention(mine: seq<Promo>, events: seq<Event>, id: string)
    ensures Mentions(ScoresOf(mine, events), id) <==> Catalog.Taken(events, id) && Promoted(mine, id)
  {
    if events != [] {
      var n := |events| - 1;
      ScoresMention(mine, events[..n], id);
      MentionsConcat(ScoresOf(mine, events[..n]), Contribution(mine, events[n]), id);
      TakenSplit(events, id);
      var last := Contribution(mine, events[n]);
      assert Mentions(last, id) <==> events[n].eventbrite.id == id && Promoted(mine, id) by {
        if |last| == 1 {
          assert last[0].eventbrite == events[n].eventbrite;
        }
      }
    }
  }

  /** A concatenation mentions an id when one of its parts does. */
  lemma MentionsConcat(front: seq<Score>, back: seq<Score>, id: string)
    ensures Mentions(front + back, id) <==> Mentions(front, id) || Mentions(back, id)
  {
    var all := front + back;
    if Mentions(front, id) {
      var k :| 0 <= k < |front| && front[k].eventbrite.id == id;
      assert all[k] == front[k];
    }
    if Mentions(back, id) {
      var k :| 0 <= k < |back| && back[k].eventbrite.id == id;
      assert all[|front| + k] == back[k];
    }
  }

  /** An id is taken in a non-empty catalog when it is taken before the last
      event or by the last event. */
  lemma TakenSplit(events: seq<Event>, id: string)
    requires events != []
    ensures Catalog.Taken(events, id)
        <==> Catalog.Taken(events[..|events| - 1], id) || events[|events| - 1].eventbrite.id == id
  {
  }

  /** Records come in catalog order: of two records, the earlier one comes
      from an earlier event. */
  lemma {:induction false} ScoresInEventOrder(mine: seq<Promo>, events: seq<Event>, k1: nat, k2: nat)
    requires k1 < k2 < |ScoresOf(mine, events)|
    ensures exists j1, j2 :: (0 <= j1 < j2 < |events|
      && ScoresOf(mine, events)[k1].eventbrite == events[j1].eventbrite
      && ScoresOf(mine, events)[k2].eventbrite == events[j2].eventbrite)
  {
    var r := ScoresOf(mine, events);
    var n := |events| - 1;
    var prefix := ScoresOf(mine, events[..n]);
    assert r == prefix + Contribution(mine, events[n]);
    if k2 < |prefix| {
      ScoresInEventOrder(mine, events[..n], k1, k2);
      var j1, j2 :| 0 <= j1 < j2 < n
        && prefix[k1].eventbrite == events[..n][j1].eventbrite
        && prefix[k2].eventbrite == events[..n][j2].eventbrite;
      assert events[..n][j1] == events[j1] && events[..n][j2] == events[j2];
    } else {
      ScoreRecordSource(mine, events[..n], k1);
      var j1 :| 0 <= j1 < n && prefix[k1] == ScoreOf(prefix[k1].link, events[..n][j1])
        && FirstLink(mine, events[..n][j1].eventbrite.id) == Some(prefix[k1].link);
      assert events[..n][j1] == events[j1];
      assert r[k2].eventbrite == events[n].eventbrite;
    }
  }

  /** The scorecard does not depend on the order of the catalog: permuting
      the events permutes the records. */
  lemma {:induction false} ScoresPermutation(mine: seq<Promo>, events: seq<Event>, shuffled: seq<Event>)
    requires multiset(events) == multiset(shuffled)
    ensures multiset(ScoresOf(mine, events)) == multiset(ScoresOf(mine, shuffled))
    decreases |events|
  {
    if events == [] {
      assert |shuffled| == |multiset(shuffled)| == 0;
    } else {
      var n := |events| - 1;
      var x := events[n];
      assert events == events[..n] + [x];
      assert x in multiset(shuffled);
      var m :| 0 <= m < |shuffled| && shuffled[m] == x;
      var before, after := shuffled[..m], shuffled[m + 1..];
      assert shuffled == before + [x] + after;
      RemoveOne(events[..n], x, before, after);
      ScoresPermutation(mine, events[..n], before + after);
      ScoresInsertOne(mine, before, x, after);
      ScoresAppend(mine, events[..n], [x]);
      assert ScoresOf(mine, [x]) == Contribution(mine, x) by {
        assert [x][..0] == [];
      }
    }
  }

  /** Taking the same element out of two equal multisets leaves equal
      multisets. */
  lemma RemoveOne(rest: seq<Event>, x: Event, before: seq<Event>, after: seq<Event>)
    requires multiset(rest + [x]) == multiset(before + [x] + after)
    ensures multiset(rest) == multiset(before + after)
  {
    var left, right := multiset(rest), multiset(before + after);
    assert multiset(rest + [x]) == left + multiset{x};
    assert before + [x] + after == before + ([x] + after);
    assert multiset(before + [x] + after) == multiset(before) + multiset{x} + multiset(after);
    assert right == multiset(before) + multiset(after);
    forall y
      ensures left[y] == right[y]
    {
      assert (left + multiset{x})[y] == (right + multiset{x})[y];
    }
  }

  /** The scorecard of a catalog with one event inserted holds, as a
      multiset, that event's contribution besides the rest. */
  lemma ScoresInsertOne(mine: seq<Promo>, before: seq<Event>, x: Event, after: seq<Event>)
    ensures multiset(ScoresOf(mine, before + [x] + after))
         == multiset(ScoresOf(mine, before + after)) + multiset(Contribution(mine, x))
  {
    ScoresAppend(mine, before + [x], after);
    ScoresAppend(mine, before, [x]);
    ScoresAppend(mine, before, after);
    assert ScoresOf(mine, [x]) == Contribution(mine, x) by {
      assert [x][..0] == [];
    }
  }

  /** No two of the promoter's promos are for the same event: the shape the
      comment of POST /promoter describes, which the blind insert does not
      enforce. */
  predicate OnePromoPerEvent(mine: seq<Promo>)
  {
    forall i, j :: 0 <= i < j < |mine| ==> mine[i].event != mine[j].event
  }

  /** A link the scan finds is the link of one of the promos. */
  lemma {:induction false} FirstLinkFound(mine: seq<Promo>, id: string)
    requires FirstLink(mine, id).Some?
    ensures exists i :: 0 <= i < |mine| && mine[i].event == id && mine[i].link == FirstLink(mine, id).value
  {
    if mine[0].event != id {
      FirstLinkFound(mine[1..], id);
      var i :| 0 <= i < |mine[1..]| && mine[1..][i].event == id && mine[1..][i].link == FirstLink(mine, id).value;
      assert mine[i + 1] == mine[1..][i];
    }
  }

  /** With one promo per event, the scan finds the link of the promo for
      the event, wherever it stands. */
  lemma FirstLinkOfOnly(mine: seq<Promo>, id: string, i: nat)
    requires OnePromoPerEvent(mine) && i < |mine| && mine[i].event == id
    ensures FirstLink(mine, id) == Some(mine[i].link)
  {
    FirstLinkAt(mine, id, i);
  }

  /** Whether some promo is for an event does not depend on their order. */
  lemma PromotedReorder(mine: seq<Promo>, other: seq<Promo>, id: string)
    requires multiset(mine) == multiset(other)
    ensures Promoted(mine, id) ==> Promoted(other, id)
  {
    if Promoted(mine, id) {
      var i :| 0 <= i < |mine| && mine[i].event == id;
      assert mine[i] in multiset(other);
      var j :| 0 <= j < |other| && other[j] == mine[i];
    }
  }

  /** With one promo per event, the scan does not depend on the order of
      the promos. */
  lemma FirstLinkReorder(mine: seq<Promo>, other: seq<Promo>, id: string)
    requires OnePromoPerEvent(mine) && multiset(mine) == multiset(other)
    ensures FirstLink(mine, id) == FirstLink(other, id)
  {
    PromotedReorder(mine, other, id);
    if FirstLink(other, id).Some? {
      FirstLinkFound(other, id);
      var j :| 0 <= j < |other| && other[j].event == id && other[j].link == FirstLink(other, id).value;
      assert other[j] in multiset(mine);
      var i :| 0 <= i < |mine| && mine[i] == other[j];
      FirstLinkOfOnly(mine, id, i);
    }
  }

  /** With one promo per event, permuting the promoter's promos leaves the
      scorecard as it was. */
  lemma {:induction false} ScoresPromoOrder(mine: seq<Promo>, other: seq<Promo>, events: seq<Event>)
    requires OnePromoPerEvent(mine) && multiset(mine) == multiset(other)
    ensures ScoresOf(mine, events) == ScoresOf(other, events)
  {
    if events != [] {
      var n := |events| - 1;
      ScoresPromoOrder(mine, other, events[..n]);
      FirstLinkReorder(mine, other, events[n].eventbrite.id);
    }
  }

  /** Without one promo per event the order of the promos matters: two
      promos of the same event, stored in either order, give scorecards
      with different links. */
  lemma PromoOrderMatters()
    ensures var e := Event("Launch", "Party", [], "alice", 10, "badge", 5, "sticker", 1, "shoutout",
                           Descriptor("E1", "Launch", "Party"));
            var p1, p2 := Promo("E1", "L1", "bob", "Bob Stone"), Promo("E1", "L2", "bob", "Bob Stone");
            && multiset([p1, p2]) == multiset([p2, p1])
            && ScoresOf([p1, p2], [e]) == [ScoreOf("L1", e)]
            && ScoresOf([p2, p1], [e]) == [ScoreOf("L2", e)]
            && ScoresOf([p1, p2], [e]) != ScoresOf([p2, p1], [e])
  {
    var e := Event("Launch", "Party", [], "alice", 10, "badge", 5, "sticker", 1, "shoutout",
                   Descriptor("E1", "Launch", "Party"));
    assert [e][..0] == [];
  }
}
