/** The records the promotion server keeps in its three collections (Events,
    Promos, Users), the identity of the signed-in requester, and the request
    bodies of the handlers that write. */
module Records {

  datatype Option<+T> = None | Some(value: T)

  /** The Eventbrite event descriptor a client posts to /create. It is stored
      verbatim inside the Event; only its id, name text and description text
      are read by the server. */
  datatype Descriptor = Descriptor(id: string, nameText: string, descriptionText: string)

  /** An event with its three reward tiers (gold, silver, bronze). */
  datatype Event = Event(
    name: string,
    desc: string,
    promoters: seq<string>,
    owner: string,
    gPoint: int, gReward: string,
    sPoint: int, sReward: string,
    bPoint: int, bReward: string,
    eventbrite: Descriptor)

  /** A referral link of one promoter for one event; `event` holds an
      Eventbrite id. */
  datatype Promo = Promo(event: string, link: string, promoter: string, fullName: string)

  /** A user profile; `id` is the document id the store assigned. */
  datatype User = User(
    id: string,
    username: string,
    firstName: string,
    lastName: string,
    fullName: string,
    memberSince: string)

  /** The signed-in requester as the identity provider describes it.
      `createdAt` is kept as the date the profile records (its parsing is not
      modelled). */
  datatype Account = Account(
    username: string,
    givenName: string,
    surname: string,
    fullName: string,
    createdAt: string)

  /** The body of POST /create: the Eventbrite descriptor and the three tiers. */
  datatype CreateBody = CreateBody(
    event: Descriptor,
    gPoint: int, gReward: string,
    sPoint: int, sReward: string,
    bPoint: int, bReward: string)

  /** The body of POST /promoter. */
  datatype PromoBody = PromoBody(event: string, link: string)
}
