/** The events router: its own bearer-token guard and role guard, and the six
    routes with the status each answers with. A thrown error goes through the
    error handler. */
module EventsRoutes {
  import opened Store
  import opened Text
  import opened AuthMiddleware
  import opened EventRepository
  import opened EventService
  import ErrorMiddleware

  /** The columns the image route sends back, under its own key names. The
      `date` and `remainingCapacity` keys it also writes name columns the
      table does not have, so they are left out of the JSON; the price is the
      raw NUMERIC value. */
  datatype ImageRow = ImageRow(
    id: int,
    title: string,
    description: string,
    location: string,
    price: int,
    capacity: int,
    categoryId: Option<int>,
    organizerId: int,
    imageUrl: Option<string>,
    createdAt: int,
    updatedAt: int)

  /** A response body. */
  datatype Body =
    | ErrorJson(error: string)
    | MessageJson(message: string)
    | EventJson(event: Event)
    | NullJson
    | PageJson(page: Page)
    | ImageJson(row: ImageRow)
    | NoBody

  datatype Response = Response(status: int, body: Body)

  /** A guard's outcome: `next()` with `req.user` set, or a response. */
  datatype Gate = Pass(user: Claim) | Stop(response: Response)

  const MISSING_HEADER := Response(401, ErrorJson("Missing Authorization header"))
  const BAD_TOKEN := Response(401, ErrorJson("Invalid or expired token"))
  const NO_USER := Response(401, ErrorJson("Authentication required"))
  const NOT_ORGANIZER := Response(403, ErrorJson("Forbidden: organizer or admin only"))
  const NO_IMAGE := Response(400, MessageJson("Image file is required"))
  const IMAGE_EVENT_MISSING := Response(404, MessageJson("Event not found"))

  /** `extractToken(req)`: the second space-separated field of a header that
      starts with "Bearer ", else null. */
  function ExtractToken(header: Option<string>): Option<string> {
    var h := if header.Some? then header.value else "";
    if StartsWith(h, BEARER) then Some(BearerToken(h)) else None
  }

  /** `requireAuth`: a missing or empty token, then a token the verifier
      refuses, are answered with 401. */
  function RequireAuth(header: Option<string>, check: string -> Option<Claim>): Gate {
    var token := ExtractToken(header);
    if token.None? || token.value == "" then Stop(MISSING_HEADER)
    else
      match Verify(check, token.value)
      case None => Stop(BAD_TOKEN)
      case Some(payload) => Pass(payload)
  }

  /** `requireOrganizerOrAdmin`: `None` for `next()`. */
  function RequireOrganizerOrAdmin(user: Option<Claim>): Option<Response> {
    if user.None? then Some(NO_USER)
    else if !OrganizerOrAdmin(user.value) then Some(NOT_ORGANIZER)
    else None
  }

  /** `requireAuth` followed by `requireOrganizerOrAdmin`. */
  function AuthAndRole(header: Option<string>, check: string -> Option<Claim>): Gate {
    match RequireAuth(header, check)
    case Stop(response) => Stop(response)
    case Pass(user) =>
      var denied := RequireOrganizerOrAdmin(Some(user));
      if denied.Some? then Stop(denied.value) else Pass(user)
  }

  /** `next(err)` reaching the error handler before any response is sent. */
  function FromFailure(f: Failure): Response {
    var o := ErrorMiddleware.Handle(f, false);
    Response(o.status, ErrorJson(o.error))
  }

  function ImageRowOf(e: Event): ImageRow {
    ImageRow(e.id, e.title, e.description, e.location, e.price, e.capacity, e.categoryId,
             e.organizerId, e.imageUrl, e.createdAt, e.updatedAt)
  }

  /** The image route's `UPDATE`: the new URL and NOW() on the row, if any. */
  function WithImage(e: Event, filename: string, now: int): Event {
    e.(imageUrl := Some("/uploads/events/" + filename), updatedAt := now)
  }

  class EventsRouter {
    const service: EventService
    /** The signature and expiry test behind `jwtLib.verify`. */
    const check: string -> Option<Claim>

    constructor (service: EventService, check: string -> Option<Claim>)
      ensures this.service == service && this.check == check
    {
      this.service := service;
      this.check := check;
    }

    /** `GET /`: 200 with the page, or the error handler's answer. */
    method List(query: ListQuery) returns (resp: Response)
      ensures var r := EventRepository.ListEvents(service.store.events, ParamsOf(query));
              resp == if r.Ok? then Response(200, PageJson(r.value)) else FromFailure(r.failure)
    {
      var r := service.ListEvents(query);
      if r.Err? {
        return FromFailure(r.failure);
      }
      resp := Response(200, PageJson(r.value));
    }

    /** `GET /:id`: 200 with the event, or 404. */
    method Get(id: int) returns (resp: Response)
      ensures id in service.store.events ==> resp == Response(200, EventJson(service.store.events[id]))
      ensures id !in service.store.events ==> resp == Response(404, ErrorJson("Event not found"))
    {
      var r := service.GetEventById(id);
      if r.Err? {
        return FromFailure(r.failure);
      }
      resp := Response(200, EventJson(r.value));
    }

    /** `POST /`: both guards, then the service; 201 with the new event. */
    method Create(header: Option<string>, body: EventInput, now: int) returns (resp: Response)
      requires service.store.Valid()
      modifies service.store
      ensures service.store.Valid()
      ensures AuthAndRole(header, check).Stop? ==>
                resp == AuthAndRole(header, check).response && unchanged(service.store)
      ensures AuthAndRole(header, check).Pass? ==>
                var user := AuthAndRole(header, check).user;
                var failure := CreateCheck(body, Some(user));
                && (failure.Some? ==> resp == FromFailure(failure.value) && unchanged(service.store))
                && (failure.None? ==>
                      var e := Inserted(NewEventOf(body, user), old(service.store.nextEventId), now);
                      && resp == Response(201, EventJson(e))
                      && service.store.events == old(service.store.events)[e.id := e]
                      && service.store.nextEventId == old(service.store.nextEventId) + 1)
      ensures service.store.tickets == old(service.store.tickets)
      ensures service.store.nextTicketId == old(service.store.nextTicketId)
      ensures service.store.categories == old(service.store.categories)
      ensures service.store.nextCategoryId == old(service.store.nextCategoryId)
      ensures service.store.users == old(service.store.users)
      ensures service.store.nextUserId == old(service.store.nextUserId)
    {
      var gate := AuthAndRole(header, check);
      if gate.Stop? {
        return gate.response;
      }
      var r := service.CreateEvent(body, Some(gate.user), now);
      if r.Err? {
        return FromFailure(r.failure);
      }
      resp := Response(201, EventJson(r.value));
    }

    /** `PUT /:id`: authentication only, then the service, which checks
        ownership; 200 with the updated row (or null). */
    method Update(header: Option<string>, id: int, body: EventPatch, now: int) returns (resp: Response)
      requires service.store.Valid()
      modifies service.store
      ensures service.store.Valid()
      ensures RequireAuth(header, check).Stop? ==>
                resp == RequireAuth(header, check).response && unchanged(service.store)
      ensures RequireAuth(header, check).Pass? ==>
                var user := RequireAuth(header, check).user;
                var failure := UpdateCheck(EventRepository.GetEventById(old(service.store.events), id), body, Some(user));
                && (failure.Some? ==> resp == FromFailure(failure.value) && unchanged(service.store))
                && (failure.None? ==>
                      var u := UpdateStep(old(service.store.events), id, body, now);
                      && service.store.events == u.events
                      && resp == match u.result
                                 case Err(f) => FromFailure(f)
                                 case Ok(None) => Response(200, NullJson)
                                 case Ok(Some(e)) => Response(200, EventJson(e)))
      ensures service.store.nextEventId == old(service.store.nextEventId)
      ensures service.store.tickets == old(service.store.tickets)
      ensures service.store.nextTicketId == old(service.store.nextTicketId)
      ensures service.store.categories == old(service.store.categories)
      ensures service.store.nextCategoryId == old(service.store.nextCategoryId)
      ensures service.store.users == old(service.store.users)
      ensures service.store.nextUserId == old(service.store.nextUserId)
    {
      var gate := RequireAuth(header, check);
      if gate.Stop? {
        return gate.response;
      }
      var r := service.UpdateEvent(id, body, Some(gate.user), now);
      match r
      case Err(f) => resp := FromFailure(f);
      case Ok(None) => resp := Response(200, NullJson);
      case Ok(Some(e)) => resp := Response(200, EventJson(e));
    }

    /** `DELETE /:id`: authentication only, then the service; 204. */
    method Delete(header: Option<string>, id: int) returns (resp: Response)
      requires service.store.Valid()
      modifies service.store
      ensures service.store.Valid()
      ensures RequireAuth(header, check).Stop? ==>
                resp == RequireAuth(header, check).response && unchanged(service.store)
      ensures RequireAuth(header, check).Pass? ==>
                var user := RequireAuth(header, check).user;
                var failure := DeleteCheck(EventRepository.GetEventById(old(service.store.events), id), Some(user));
                && (failure.Some? ==> resp == FromFailure(failure.value) && unchanged(service.store))
                && (failure.None? ==>
                      var (dbFailure, after) := DeleteStep(old(service.store.events), old(service.store.tickets), id);
                      && service.store.events == after
                      && resp == if dbFailure.Some? then FromFailure(dbFailure.value) else Response(204, NoBody))
      ensures service.store.nextEventId == old(service.store.nextEventId)
      ensures service.store.tickets == old(service.store.tickets)
      ensures service.store.nextTicketId == old(service.store.nextTicketId)
      ensures service.store.categories == old(service.store.categories)
      ensures service.store.nextCategoryId == old(service.store.nextCategoryId)
      ensures service.store.users == old(service.store.users)
      ensures service.store.nextUserId == old(service.store.nextUserId)
    {
      var gate := RequireAuth(header, check);
      if gate.Stop? {
        return gate.response;
      }
      var r := service.DeleteEvent(id, Some(gate.user));
      if r.Err? {
        return FromFailure(r.failure);
      }
      resp := Response(204, NoBody);
    }

    /** `POST /:id/image`: both guards, then the uploaded file's URL is
        written to the row, whoever organizes the event. */
    method UploadImage(header: Option<string>, id: int, filename: Option<string>, now: int)
      returns (resp: Response)
      requires service.store.Valid()
      modifies service.store
      ensures service.store.Valid()
      ensures AuthAndRole(header, check).Stop? ==>
                resp == AuthAndRole(header, check).response && unchanged(service.store)
      ensures AuthAndRole(header, check).Pass? && filename.None? ==>
                resp == NO_IMAGE && unchanged(service.store)
      ensures AuthAndRole(header, check).Pass? && filename.Some? && id !in old(service.store.events) ==>
                resp == IMAGE_EVENT_MISSING && unchanged(service.store)
      ensures AuthAndRole(header, check).Pass? && filename.Some? && id in old(service.store.events) ==>
                var e := WithImage(old(service.store.events)[id], filename.value, now);
                && service.store.events == old(service.store.events)[id := e]
                && resp == Response(200, ImageJson(ImageRowOf(e)))
      ensures service.store.nextEventId == old(service.store.nextEventId)
      ensures service.store.tickets == old(service.store.tickets)
      ensures service.store.nextTicketId == old(service.store.nextTicketId)
      ensures service.store.categories == old(service.store.categories)
      ensures service.store.nextCategoryId == old(service.store.nextCategoryId)
      ensures service.store.users == old(service.store.users)
      ensures service.store.nextUserId == old(service.store.nextUserId)
    {
      var gate := AuthAndRole(header, check);
      if gate.Stop? {
        return gate.response;
      }
      if filename.None? {
        return NO_IMAGE;
      }
      var db := service.store;
      if id !in db.events {
        return IMAGE_EVENT_MISSING;
      }
      var e := WithImage(db.events[id], filename.value, now);
      db.events := db.events[id := e];
      resp := Response(200, ImageJson(ImageRowOf(e)));
    }
  }

  /** Without a header, or with one that is not "Bearer <token>", every
      protected route answers 401 before anything else; "Bearer " alone
      counts as a missing header here, unlike the standalone middleware,
      which reports it as an invalid token. */
  lemma GuardRejectsMissingToken(header: Option<string>, check: string -> Option<Claim>)
    ensures header.None? ==> RequireAuth(header, check) == Stop(MISSING_HEADER)
    ensures header.Some? && !StartsWith(header.value, BEARER) ==> RequireAuth(header, check) == Stop(MISSING_HEADER)
    ensures RequireAuth(Some(BEARER), check) == Stop(MISSING_HEADER)
    ensures Authenticate(Some(BEARER), check) == Reject(401, INVALID_TOKEN)
  {
    BearerTokenRoundTrip("", "");
    AuthenticateCases(Some(BEARER), check);
  }

  /** A token without spaces sent as "Bearer <token>" is the one verified,
      and the route is let through exactly when the verifier accepts it. */
  lemma GuardVerifiesToken(token: string, check: string -> Option<Claim>)
    requires token != "" && ' ' !in token
    ensures RequireAuth(Some(BEARER + token), check)
            == if check(token).Some? then Pass(check(token).value) else Stop(BAD_TOKEN)
  {
    BearerTokenRoundTrip(token, "");
    assert BEARER + token + "" == BEARER + token;
  }

  /** After `requireAuth` has set `req.user`, the role guard can only answer
      403; its 401 branch is never reached on these routes. A user whose
      role reads ORGANIZER or ADMIN in any case passes. */
  lemma RoleGuardAfterAuth(header: Option<string>, check: string -> Option<Claim>)
    ensures match AuthAndRole(header, check)
            case Stop(r) => r == NOT_ORGANIZER || RequireAuth(header, check) == Stop(r)
            case Pass(u) => RequireAuth(header, check) == Pass(u) && OrganizerOrAdmin(u)
    ensures RequireAuth(header, check).Pass? ==>
              (AuthAndRole(header, check).Pass? <==> OrganizerOrAdmin(RequireAuth(header, check).user))
  {
  }

  /** POST needs the organizer or admin role, but PUT and DELETE let any
      signed-in user through to the service, which then decides by
      ownership. */
  lemma PlainUserStoppedOnlyOnPost(header: Option<string>, check: string -> Option<Claim>)
    requires RequireAuth(header, check).Pass?
    requires Upper(RequireAuth(header, check).user.role) == USER
    ensures AuthAndRole(header, check) == Stop(NOT_ORGANIZER)
    ensures RequireAuth(header, check) == Pass(RequireAuth(header, check).user)
  {
  }

  /** Every error a service throws on these routes gets the error handler's
      status: 401 to an anonymous caller, 403 to a wrong owner, 404 to a
      missing event, 400 to a bad capacity. */
  lemma ServiceErrorsStatuses()
    ensures FromFailure(AUTH_REQUIRED).status == 401
    ensures FromFailure(CREATE_FORBIDDEN).status == 403
    ensures FromFailure(UPDATE_FORBIDDEN).status == 403
    ensures FromFailure(DELETE_FORBIDDEN).status == 403
    ensures FromFailure(EVENT_NOT_FOUND) == Response(404, ErrorJson("Event not found"))
    ensures FromFailure(BAD_CAPACITY).status == 400 && FromFailure(MISSING_FIELDS).status == 400
    ensures FromFailure(NOT_NULL_VIOLATION) == Response(500, ErrorJson("Internal server error"))
    ensures FromFailure(OFFSET_NEGATIVE).status == 500 && FromFailure(LIMIT_NEGATIVE).status == 500
  {
  }
}
