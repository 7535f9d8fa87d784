/** The event service: who may create, change and delete an event, the checks
    on the fields it is given, and the defaults of the listing query. */
module EventService {
  import opened Store
  import opened Text
  import opened EventRepository

  /** The create body; `None` for a key that is absent or null. */
  datatype EventInput = EventInput(
    title: Option<string>,
    description: Option<string>,
    location: Option<string>,
    startDate: Option<int>,
    endDate: Option<int>,
    capacity: Option<int>,
    price: Option<int>,
    imageUrl: Option<string>,
    isPublished: Option<bool>,
    categoryId: Option<int>)

  /** The query string of the listing, each number already read with
      `Number`: `None` for a key that is absent or not a number. */
  datatype ListQuery = ListQuery(search: Option<string>, categoryId: Option<int>, page: Option<int>, pageSize: Option<int>)

  const CREATE_FORBIDDEN := Failure(FORBIDDEN, "Only organizers or admins can create events")
  const MISSING_FIELDS := Failure(VALIDATION_ERROR, "Missing required event fields")
  const BAD_CAPACITY := Failure(VALIDATION_ERROR, "Capacity must be greater than zero")
  const UPDATE_FORBIDDEN := Failure(FORBIDDEN, "Only the organizer or admin can update this event")
  const DELETE_FORBIDDEN := Failure(FORBIDDEN, "Only the organizer or admin can delete this event")

  predicate OrganizerOrAdmin(user: Claim) {
    RoleOf(user) == ORGANIZER || RoleOf(user) == ADMIN
  }

  /** The event's organizer or an administrator. */
  predicate MayManage(user: Claim, e: Event) {
    e.organizerId == user.id || RoleOf(user) == ADMIN
  }

  predicate Complete(input: EventInput) {
    && Filled(input.title) && Filled(input.description) && Filled(input.location)
    && input.startDate.Some? && input.capacity.Some? && input.price.Some?
  }

  /** The checks of `createEvent`, in order; `None` when all pass. */
  function CreateCheck(input: EventInput, user: Option<Claim>): Option<Failure> {
    if user.None? then Some(AUTH_REQUIRED)
    else if !OrganizerOrAdmin(user.value) then Some(CREATE_FORBIDDEN)
    else if !Complete(input) then Some(MISSING_FIELDS)
    else if input.capacity.value <= 0 then Some(BAD_CAPACITY)
    else None
  }

  /** What `createEvent` hands the repository: the given fields, the
      defaults for the optional ones, and the caller as organizer. */
  function NewEventOf(input: EventInput, user: Claim): NewEvent
    requires Complete(input)
  {
    NewEvent(
      input.title.value, input.description.value, input.location.value, input.startDate.value,
      input.endDate, input.capacity.value, input.price.value, TextOrNull(input.imageUrl),
      input.isPublished == Some(true), IdOrNull(input.categoryId), user.id)
  }

  /** The arguments `listEvents` passes on. */
  function ParamsOf(q: ListQuery): ListParams {
    ListParams(
      if q.search.Some? then q.search.value else "",
      q.categoryId,
      Some(NumberOr(q.page, 1)),
      Some(NumberOr(q.pageSize, 10)))
  }

  /** The checks of `updateEvent` once the row has been read. */
  function UpdateCheck(existing: Option<Event>, input: EventPatch, user: Option<Claim>): Option<Failure> {
    if user.None? then Some(AUTH_REQUIRED)
    else if existing.None? then Some(EVENT_NOT_FOUND)
    else if !MayManage(user.value, existing.value) then Some(UPDATE_FORBIDDEN)
    else if input.capacity.Value? && input.capacity.value <= 0 then Some(BAD_CAPACITY)
    else None
  }

  /** The checks of `deleteEvent` once the row has been read. */
  function DeleteCheck(existing: Option<Event>, user: Option<Claim>): Option<Failure> {
    if user.None? then Some(AUTH_REQUIRED)
    else if existing.None? then Some(EVENT_NOT_FOUND)
    else if !MayManage(user.value, existing.value) then Some(DELETE_FORBIDDEN)
    else None
  }

  /** No event has fewer than zero places left. */
  predicate CapacitiesNonNegative(events: map<int, Event>) {
    forall id :: id in events ==> events[id].capacity >= 0
  }

  class EventService {
    const store: Database

    constructor (store: Database)
      ensures this.store == store
    {
      this.store := store;
    }

    /** `createEvent`: a rejected request leaves the table alone; an accepted
        one inserts the event with its defaults, owned by the caller. */
    method CreateEvent(input: EventInput, currentUser: Option<Claim>, now: int) returns (r: Result<Event>)
      requires store.Valid()
      modifies store
      ensures store.Valid()
      ensures CreateCheck(input, currentUser).Some? ==>
                r == Err(CreateCheck(input, currentUser).value) && unchanged(store)
      ensures CreateCheck(input, currentUser).None? ==>
                && r == Ok(Inserted(NewEventOf(input, currentUser.value), old(store.nextEventId), now))
                && store.events == old(store.events)[r.value.id := r.value]
                && store.nextEventId == old(store.nextEventId) + 1
      ensures CapacitiesNonNegative(old(store.events)) ==> CapacitiesNonNegative(store.events)
      ensures store.tickets == old(store.tickets) && store.nextTicketId == old(store.nextTicketId)
      ensures store.categories == old(store.categories) && store.nextCategoryId == old(store.nextCategoryId)
      ensures store.users == old(store.users) && store.nextUserId == old(store.nextUserId)
    {
      var failure := CreateCheck(input, currentUser);
      if failure.Some? {
        return Err(failure.value);
      }
      var e := EventRepository.CreateEvent(store, NewEventOf(input, currentUser.value), now);
      r := Ok(e);
    }

    /** `listEvents`: the repository's listing under the query's defaults. */
    method ListEvents(query: ListQuery) returns (r: Result<Page>)
      ensures r == EventRepository.ListEvents(store.events, ParamsOf(query))
    {
      r := EventRepository.ListEvents(store.events, ParamsOf(query));
    }

    /** `getEventById`: the stored event, or NOT_FOUND. */
    method GetEventById(id: int) returns (r: Result<Event>)
      ensures id in store.events ==> r == Ok(store.events[id])
      ensures id !in store.events ==> r == Err(EVENT_NOT_FOUND)
    {
      var existing := EventRepository.GetEventById(store.events, id);
      if existing.None? {
        return Err(EVENT_NOT_FOUND);
      }
      r := Ok(existing.value);
    }

    /** `updateEvent`: the checks in order, then the repository's update. */
    method UpdateEvent(id: int, input: EventPatch, currentUser: Option<Claim>, now: int)
      returns (r: Result<Option<Event>>)
      requires store.Valid()
      modifies store
      ensures store.Valid()
      ensures var failure := UpdateCheck(EventRepository.GetEventById(old(store.events), id), input, currentUser);
              failure.Some? ==> r == Err(failure.value) && unchanged(store)
      ensures var failure := UpdateCheck(EventRepository.GetEventById(old(store.events), id), input, currentUser);
              failure.None? ==>
                var u := UpdateStep(old(store.events), id, input, now);
                r == u.result && store.events == u.events
      ensures CapacitiesNonNegative(old(store.events)) ==> CapacitiesNonNegative(store.events)
      ensures store.nextEventId == old(store.nextEventId)
      ensures store.tickets == old(store.tickets) && store.nextTicketId == old(store.nextTicketId)
      ensures store.categories == old(store.categories) && store.nextCategoryId == old(store.nextCategoryId)
      ensures store.users == old(store.users) && store.nextUserId == old(store.nextUserId)
    {
      if currentUser.None? {
        return Err(AUTH_REQUIRED);
      }
      var existing := EventRepository.GetEventById(store.events, id);
      var failure := UpdateCheck(existing, input, currentUser);
      if failure.Some? {
        return Err(failure.value);
      }
      UpdateKeepsCapacities(store.events, id, input, currentUser, now);
      r := EventRepository.UpdateEvent(store, id, input, now);
    }

    /** `deleteEvent`: the checks in order, then the repository's delete. */
    method DeleteEvent(id: int, currentUser: Option<Claim>) returns (r: Result<()>)
      requires store.Valid()
      modifies store
      ensures store.Valid()
      ensures var failure := DeleteCheck(EventRepository.GetEventById(old(store.events), id), currentUser);
              failure.Some? ==> r == Err(failure.value) && unchanged(store)
      ensures var failure := DeleteCheck(EventRepository.GetEventById(old(store.events), id), currentUser);
              failure.None? ==>
                var (dbFailure, after) := DeleteStep(old(store.events), old(store.tickets), id);
                && store.events == after
                && r == if dbFailure.Some? then Err(dbFailure.value) else Ok(())
      ensures CapacitiesNonNegative(old(store.events)) ==> CapacitiesNonNegative(store.events)
      ensures store.nextEventId == old(store.nextEventId)
      ensures store.tickets == old(store.tickets) && store.nextTicketId == old(store.nextTicketId)
      ensures store.categories == old(store.categories) && store.nextCategoryId == old(store.nextCategoryId)
      ensures store.users == old(store.users) && store.nextUserId == old(store.nextUserId)
    {
      if currentUser.None? {
        return Err(AUTH_REQUIRED);
      }
      var existing := EventRepository.GetEventById(store.events, id);
      var failure := DeleteCheck(existing, currentUser);
      if failure.Some? {
        return Err(failure.value);
      }
      var dbFailure := EventRepository.DeleteEvent(store, id);
      if dbFailure.Some? {
        return Err(dbFailure.value);
      }
      r := Ok(());
    }
  }

  /** An update the service lets through never leaves an event with fewer
      than zero places: a given capacity is positive, an absent one is kept. */
  lemma UpdateKeepsCapacities(events: map<int, Event>, id: int, input: EventPatch, user: Option<Claim>, now: int)
    requires UpdateCheck(GetEventById(events, id), input, user).None?
    ensures CapacitiesNonNegative(events) ==> CapacitiesNonNegative(UpdateStep(events, id, input, now).events)
  {
  }

  /** The order of the create checks: authentication first, then the role,
      then the fields, then the capacity; an accepted event has a positive
      capacity, belongs to the caller and is unpublished unless asked. */
  lemma CreateCheckOrder(input: EventInput, user: Option<Claim>)
    ensures user.None? ==> CreateCheck(input, user) == Some(AUTH_REQUIRED)
    ensures user.Some? && !OrganizerOrAdmin(user.value) ==> CreateCheck(input, user) == Some(CREATE_FORBIDDEN)
    ensures CreateCheck(input, user).None? <==>
              user.Some? && OrganizerOrAdmin(user.value) && Complete(input) && input.capacity.value > 0
    ensures CreateCheck(input, user).None? ==>
              var data := NewEventOf(input, user.value);
              && data.capacity > 0
              && data.organizerId == user.value.id
              && (input.isPublished.None? ==> !data.isPublished)
              && (input.imageUrl == Some("") ==> data.imageUrl.None?)
              && (input.categoryId == Some(0) ==> data.categoryId.None?)
  {
  }

  /** The role check ignores case: "organizer" and "Admin" may create. A
      plain user, or a token without a role, may not. */
  lemma RoleExamples(id: int)
    ensures OrganizerOrAdmin(Claim(id, "organizer")) && OrganizerOrAdmin(Claim(id, "Admin"))
    ensures !OrganizerOrAdmin(Claim(id, "user")) && !OrganizerOrAdmin(Claim(id, ""))
  {
    assert Upper("organizer") == ORGANIZER;
    assert Upper("Admin") == ADMIN;
    assert Upper("user") == USER;
  }

  /** Only the organizer of an event or an administrator gets past the
      ownership check, and a missing event is reported before ownership. */
  lemma ManageCheck(existing: Option<Event>, input: EventPatch, user: Option<Claim>)
    ensures user.Some? && existing.None? ==> UpdateCheck(existing, input, user) == Some(EVENT_NOT_FOUND)
    ensures user.Some? && existing.None? ==> DeleteCheck(existing, user) == Some(EVENT_NOT_FOUND)
    ensures UpdateCheck(existing, input, user).None? ==>
              user.Some? && existing.Some? && MayManage(user.value, existing.value)
    ensures DeleteCheck(existing, user).None? <==>
              user.Some? && existing.Some? && MayManage(user.value, existing.value)
    ensures user.Some? && existing.Some? && MayManage(user.value, existing.value) ==>
              (UpdateCheck(existing, input, user).None? <==> !(input.capacity.Value? && input.capacity.value <= 0))
  {
  }

  /** The listing defaults: no search is the empty search, a missing,
      non-numeric or zero page is page 1 and such a size is 10; and the
      repository, applying `Number(x) || d` again, keeps those numbers. */
  lemma ListDefaults(q: ListQuery)
    ensures ParamsOf(q).search == (if q.search.Some? then q.search.value else "")
    ensures !Truthy(q.page) ==> ParamsOf(q).page == Some(1)
    ensures !Truthy(q.pageSize) ==> ParamsOf(q).pageSize == Some(10)
    ensures Truthy(q.page) ==> ParamsOf(q).page == q.page
    ensures NumberOr(ParamsOf(q).page, 1) == NumberOr(q.page, 1)
    ensures NumberOr(ParamsOf(q).pageSize, 10) == NumberOr(q.pageSize, 10)
  {
  }

  /** With an empty query the first ten published events come back, in
      start-date order. */
  lemma DefaultListing(events: map<int, Event>)
    ensures var r := EventRepository.ListEvents(events, ParamsOf(ListQuery(None, None, None, None)));
            && r.Ok? && r.value.page == 1 && r.value.pageSize == 10
            && r.value.items == Window(Ordered(events, "", None), 0, 10)
  {
    ListEventsOutcome(events, ParamsOf(ListQuery(None, None, None, None)));
  }
}
