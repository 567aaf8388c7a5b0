/** The PostgreSQL database behind the global `db` session: one table per
    model, each a map from primary key to row, with the constraints the schema
    declares (unique emails and tokens, foreign keys with `ON DELETE CASCADE`).
    Each statement the repositories issue is committed on its own, so a
    repository call is one atomic change of this state. */
module Database {
  import opened Wrappers
  import UserModel
  import EventModel
  import TicketModel
  import RsvpModel
  import RefreshTokenModel

  /** The `IntegrityError` a violated constraint raises at commit. */
  datatype DbError = ForeignKeyViolation | UniqueViolation

  /** Every key is a positive id the table's sequence has already handed out. */
  predicate IdsBelow<T>(m: map<int, T>, next: int)
  {
    0 < next && forall k | k in m :: 0 < k < next
  }

  /** `users.email` is `UNIQUE`. */
  predicate UniqueEmails(users: map<int, UserModel.User>)
  {
    forall a, b | a in users && b in users && users[a].email == users[b].email :: a == b
  }

  /** `refresh_tokens.token` is `UNIQUE`. */
  predicate UniqueTokens(tokens: map<int, RefreshTokenModel.RefreshToken>)
  {
    forall a, b | a in tokens && b in tokens && tokens[a].token == tokens[b].token :: a == b
  }

  /** Replacing a row by one with the same address keeps addresses unique. */
  lemma SameEmailKeepsUnique(users: map<int, UserModel.User>, k: int, u: UserModel.User)
    requires UniqueEmails(users) && k in users && u.email == users[k].email
    ensures UniqueEmails(users[k := u])
  {
  }

  predicate EventsOwned(events: map<int, EventModel.Event>, users: map<int, UserModel.User>)
  {
    forall k | k in events :: events[k].organizerId in users
  }

  predicate TicketsLinked(tickets: map<int, TicketModel.Ticket>, events: map<int, EventModel.Event>)
  {
    forall k | k in tickets :: tickets[k].eventId in events
  }

  predicate RsvpsLinked(rsvps: map<int, RsvpModel.Rsvp>, events: map<int, EventModel.Event>,
                        tickets: map<int, TicketModel.Ticket>, users: map<int, UserModel.User>)
  {
    forall k | k in rsvps :: rsvps[k].eventId in events && rsvps[k].ticketId in tickets && rsvps[k].userId in users
  }

  predicate TokensOwned(tokens: map<int, RefreshTokenModel.RefreshToken>, users: map<int, UserModel.User>)
  {
    forall k | k in tokens :: tokens[k].userId in users
  }

  /** The rows that survive deleting `gone` events under `ON DELETE CASCADE`. */
  function TicketsOutside(tickets: map<int, TicketModel.Ticket>, gone: set<int>): (r: map<int, TicketModel.Ticket>)
    ensures forall k :: k in r <==> k in tickets && tickets[k].eventId !in gone
    ensures forall k | k in r :: r[k] == tickets[k]
  {
    map k | k in tickets && tickets[k].eventId !in gone :: tickets[k]
  }

  /** The RSVPs that survive when their event or their ticket is deleted. */
  function RsvpsWithin(rsvps: map<int, RsvpModel.Rsvp>, events: map<int, EventModel.Event>,
                       tickets: map<int, TicketModel.Ticket>): (r: map<int, RsvpModel.Rsvp>)
    ensures forall k :: k in r <==> k in rsvps && rsvps[k].eventId in events && rsvps[k].ticketId in tickets
    ensures forall k | k in r :: r[k] == rsvps[k]
  {
    map k | k in rsvps && rsvps[k].eventId in events && rsvps[k].ticketId in tickets :: rsvps[k]
  }

  class Db {
    var users: map<int, UserModel.User>
    var events: map<int, EventModel.Event>
    var tickets: map<int, TicketModel.Ticket>
    var rsvps: map<int, RsvpModel.Rsvp>
    var tokens: map<int, RefreshTokenModel.RefreshToken>
    var nextUserId: int
    var nextEventId: int
    var nextTicketId: int
    var nextRsvpId: int
    var nextTokenId: int

    ghost predicate Valid()
      reads this
    {
      && IdsBelow(users, nextUserId) && IdsBelow(events, nextEventId) && IdsBelow(tickets, nextTicketId)
      && IdsBelow(rsvps, nextRsvpId) && IdsBelow(tokens, nextTokenId)
      && UniqueEmails(users) && UniqueTokens(tokens)
      && EventsOwned(events, users) && TicketsLinked(tickets, events)
      && RsvpsLinked(rsvps, events, tickets, users) && TokensOwned(tokens, users)
    }

    /** A freshly created schema: every table empty, every sequence at 1. */
    constructor()
      ensures Valid()
      ensures users == map[] && events == map[] && tickets == map[] && rsvps == map[] && tokens == map[]
    {
      users, events, tickets, rsvps, tokens := map[], map[], map[], map[], map[];
      nextUserId, nextEventId, nextTicketId, nextRsvpId, nextTokenId := 1, 1, 1, 1, 1;
    }

    twostate predicate UsersSame()
      reads this
    {
      users == old(users) && nextUserId == old(nextUserId)
    }

    twostate predicate EventsSame()
      reads this
    {
      events == old(events) && nextEventId == old(nextEventId)
    }

    twostate predicate TicketsSame()
      reads this
    {
      tickets == old(tickets) && nextTicketId == old(nextTicketId)
    }

    twostate predicate RsvpsSame()
      reads this
    {
      rsvps == old(rsvps) && nextRsvpId == old(nextRsvpId)
    }

    twostate predicate TokensSame()
      reads this
    {
      tokens == old(tokens) && nextTokenId == old(nextTokenId)
    }

    twostate predicate Same()
      reads this
    {
      UsersSame() && EventsSame() && TicketsSame() && RsvpsSame() && TokensSame()
    }
  }
}
