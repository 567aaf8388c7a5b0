/** The `tickets` row and the ticket schema's create and update payloads. The
    price is a `real`: the model orders by it but does no float arithmetic. */
module TicketModel {
  import opened Wrappers

  datatype TicketType = Free | Paid | Vip | EarlyBird

  /** A `tickets` row (its key is the ticket id). */
  datatype Ticket = Ticket(
    name: string,
    description: Option<string>,
    price: real,
    currency: string,
    quantityTotal: int,
    quantitySold: int,
    ticketType: TicketType,
    saleStartDate: Option<int>,
    saleEndDate: Option<int>,
    eventId: int,
    isDeleted: bool,
    createdAt: int)

  /** `TicketCreate`. */
  datatype TicketCreate = TicketCreate(
    name: string,
    description: Option<string>,
    price: real,
    currency: string,
    quantityTotal: int,
    quantitySold: int,
    ticketType: TicketType,
    saleStartDate: Option<int>,
    saleEndDate: Option<int>,
    eventId: int)

  /** The row `Ticket(**data.model_dump())` inserts. */
  function NewTicket(data: TicketCreate, now: int): (t: Ticket)
    ensures t.eventId == data.eventId && t.quantityTotal == data.quantityTotal
    ensures t.quantitySold == data.quantitySold && !t.isDeleted && t.createdAt == now
  {
    Ticket(data.name, data.description, data.price, data.currency, data.quantityTotal,
           data.quantitySold, data.ticketType, data.saleStartDate, data.saleEndDate,
           data.eventId, false, now)
  }

  /** `TicketUpdate`: every field optional. It has no `event_id`, so a ticket
      never moves to another event. */
  datatype TicketUpdate = TicketUpdate(
    name: Option<string>,
    description: Option<string>,
    price: Option<real>,
    currency: Option<string>,
    quantityTotal: Option<int>,
    quantitySold: Option<int>,
    ticketType: Option<TicketType>,
    saleStartDate: Option<int>,
    saleEndDate: Option<int>)

  const NoTicketChange := TicketUpdate(None, None, None, None, None, None, None, None, None)

  function Pick<T>(o: Option<T>, current: T): T
  {
    if o.Some? then o.value else current
  }

  /** The `setattr` loop of the repository update over the supplied fields. */
  function PatchTicket(t: Ticket, u: TicketUpdate): (r: Ticket)
    ensures r.eventId == t.eventId && r.isDeleted == t.isDeleted && r.createdAt == t.createdAt
    ensures r.quantitySold == (if u.quantitySold.Some? then u.quantitySold.value else t.quantitySold)
    ensures r.quantityTotal == (if u.quantityTotal.Some? then u.quantityTotal.value else t.quantityTotal)
  {
    Ticket(Pick(u.name, t.name),
           if u.description.Some? then u.description else t.description,
           Pick(u.price, t.price), Pick(u.currency, t.currency),
           Pick(u.quantityTotal, t.quantityTotal), Pick(u.quantitySold, t.quantitySold),
           Pick(u.ticketType, t.ticketType),
           if u.saleStartDate.Some? then u.saleStartDate else t.saleStartDate,
           if u.saleEndDate.Some? then u.saleEndDate else t.saleEndDate,
           t.eventId, t.isDeleted, t.createdAt)
  }

  lemma PatchNothing(t: Ticket)
    ensures PatchTicket(t, NoTicketChange) == t
  {
  }

  lemma PatchIdempotent(t: Ticket, u: TicketUpdate)
    ensures PatchTicket(PatchTicket(t, u), u) == PatchTicket(t, u)
  {
  }

  /** Tickets still on sale: `quantity_sold < quantity_total`. */
  predicate OnSale(t: Ticket)
  {
    t.quantitySold < t.quantityTotal
  }
}
