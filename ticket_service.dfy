/** The ticket service: the guards a purchase must pass before the repository
    is reached, and the caller's own ticket listing. */
module TicketService {
  import opened Store
  import opened TicketRepository

  /** The request body `{ eventId, quantity }`; `None` for an absent field. */
  datatype PurchaseInput = PurchaseInput(eventId: Option<int>, quantity: Option<int>)

  const BAD_PURCHASE := Failure(VALIDATION_ERROR, "eventId and positive quantity are required")

  /** The purchase passes `!eventId || !quantity || Number(quantity) <= 0`. */
  predicate WellFormed(input: PurchaseInput) {
    Truthy(input.eventId) && Truthy(input.quantity) && input.quantity.value > 0
  }

  /** The repository call a well-formed purchase by `user` makes. */
  function RequestFor(input: PurchaseInput, user: Claim, now: int): Request
    requires WellFormed(input)
  {
    Request(user.id, input.eventId.value, input.quantity.value, now)
  }

  class TicketService {
    const store: Database

    constructor (store: Database)
      ensures this.store == store
    {
      this.store := store;
    }

    /** `purchase`: unauthenticated and malformed requests fail before the
        store is touched; any other goes to the repository with the caller's
        id, and its result or error comes back unchanged. */
    method Purchase(input: PurchaseInput, currentUser: Option<Claim>, now: int)
      returns (r: Result<TicketRepository.Purchase>)
      requires store.Valid()
      modifies store
      ensures store.Valid()
      ensures currentUser.None? ==> r == Err(AUTH_REQUIRED) && unchanged(store)
      ensures currentUser.Some? && !WellFormed(input) ==> r == Err(BAD_PURCHASE) && unchanged(store)
      ensures currentUser.Some? && WellFormed(input) ==>
                var s := PurchaseStep(old(TablesOf(store)), RequestFor(input, currentUser.value, now));
                r == s.result && TablesOf(store) == s.after
      ensures store.nextEventId == old(store.nextEventId)
      ensures store.categories == old(store.categories) && store.nextCategoryId == old(store.nextCategoryId)
      ensures store.users == old(store.users) && store.nextUserId == old(store.nextUserId)
    {
      if currentUser.None? {
        return Err(AUTH_REQUIRED);
      }
      if !WellFormed(input) {
        return Err(BAD_PURCHASE);
      }
      r := PurchaseTicket(store, currentUser.value.id, input.eventId.value, input.quantity.value, now);
    }

    /** `listMyTickets`: the repository's listing for the caller's id. */
    method ListMyTickets(currentUser: Option<Claim>) returns (r: Result<seq<TicketView>>)
      ensures currentUser.None? ==> r == Err(AUTH_REQUIRED)
      ensures currentUser.Some? ==> r == Ok(ListTicketsByUser(store.events, store.tickets, currentUser.value.id))
    {
      if currentUser.None? {
        return Err(AUTH_REQUIRED);
      }
      r := Ok(ListTicketsByUser(store.events, store.tickets, currentUser.value.id));
    }
  }

  /** A purchase the service accepts always asks for at least one place, so
      when it succeeds the event's capacity strictly drops and its sold count
      strictly rises, by the same amount. */
  lemma AcceptedPurchaseTakesPlaces(t: Tables, input: PurchaseInput, user: Claim, now: int)
    requires WellFormed(input)
    requires PurchaseStep(t, RequestFor(input, user, now)).result.Ok?
    ensures var id := input.eventId.value;
            var a := PurchaseStep(t, RequestFor(input, user, now)).after;
            && id in t.events && id in a.events
            && a.events[id].capacity < t.events[id].capacity
            && Sold(a.tickets, id) == Sold(t.tickets, id) + (t.events[id].capacity - a.events[id].capacity)
            && Sold(a.tickets, id) > Sold(t.tickets, id)
  {
    var r := RequestFor(input, user, now);
    var s := PurchaseStep(t, r);
    SoldAppend(t.tickets, s.result.value.ticket, r.eventId);
  }

  /** A missing field, an eventId of 0 or a quantity of 0 is rejected. */
  lemma MalformedExamples(eventId: int, quantity: int)
    ensures !WellFormed(PurchaseInput(None, None))
    ensures !WellFormed(PurchaseInput(Some(eventId), Some(0)))
    ensures !WellFormed(PurchaseInput(Some(0), Some(quantity)))
    ensures quantity < 0 ==> !WellFormed(PurchaseInput(Some(eventId), Some(quantity)))
    ensures eventId != 0 && quantity > 0 ==> WellFormed(PurchaseInput(Some(eventId), Some(quantity)))
  {
  }
}
