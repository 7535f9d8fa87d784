/** The rows of the PostgreSQL schema the backend works on, the error values
    its services throw, and the database itself as one object whose tables the
    repositories update in place. Money is in integer cents (the schema's
    NUMERIC(10,2)); timestamps are integers. */
module Store {
  import opened Text

  datatype Option<T> = None | Some(value: T)

  /** A thrown `Error` with its `code` and `message` properties. */
  datatype Failure = Failure(code: string, message: string)

  datatype Result<T> = Ok(value: T) | Err(failure: Failure)

  /** JavaScript truthiness of a numeric field: absent and 0 are falsy. */
  predicate Truthy(o: Option<int>) {
    o.Some? && o.value != 0
  }

  /** JavaScript truthiness of a text field: absent and "" are falsy. */
  predicate Filled(o: Option<string>) {
    o.Some? && o.value != ""
  }

  const VALIDATION_ERROR := "VALIDATION_ERROR"
  const INVALID_CREDENTIALS := "INVALID_CREDENTIALS"
  const UNAUTHENTICATED := "UNAUTHENTICATED"
  const FORBIDDEN := "FORBIDDEN"
  const NOT_FOUND := "NOT_FOUND"
  const NOT_ENOUGH_CAPACITY := "NOT_ENOUGH_CAPACITY"
  const EMAIL_EXISTS := "EMAIL_EXISTS"

  /** The errors more than one service throws. */
  const AUTH_REQUIRED := Failure(UNAUTHENTICATED, "Authentication required")
  const EVENT_NOT_FOUND := Failure(NOT_FOUND, "Event not found")

  const USER := "USER"
  const ORGANIZER := "ORGANIZER"
  const ADMIN := "ADMIN"

  /** The verified token payload `{ id, role }` that becomes `req.user`;
      a payload without a role has role "". */
  datatype Claim = Claim(id: int, role: string)

  /** `(currentUser.role || '').toUpperCase()`, the role the services compare. */
  function RoleOf(user: Claim): string {
    Upper(user.role)
  }

  /** A row of `events`; `capacity` is the number of places still for sale. */
  datatype Event = Event(
    id: int,
    title: string,
    description: string,
    location: string,
    startDate: int,
    endDate: Option<int>,
    capacity: int,
    price: int,
    imageUrl: Option<string>,
    isPublished: bool,
    createdAt: int,
    updatedAt: int,
    categoryId: Option<int>,
    organizerId: int)

  /** A row of `tickets`: a purchase of `quantity` places at `unitPrice`. */
  datatype Ticket = Ticket(
    id: int,
    quantity: int,
    unitPrice: int,
    total: int,
    userId: int,
    eventId: int,
    createdAt: int)

  datatype Category = Category(id: int, name: string, slug: string, createdAt: int, updatedAt: int)

  /** A row of `users` as the user repository maps it; `password` holds the hash. */
  datatype User = User(
    id: int,
    name: string,
    email: string,
    password: string,
    role: string,
    createdAt: int,
    updatedAt: int)

  /** The database: the four tables and the next value of each SERIAL id. */
  class Database {
    var events: map<int, Event>
    var nextEventId: int
    var tickets: seq<Ticket>
    var nextTicketId: int
    var categories: seq<Category>
    var nextCategoryId: int
    var users: seq<User>
    var nextUserId: int

    /** Every row's id comes from its table's sequence, and an event is
        stored under its own id. */
    ghost predicate Valid()
      reads this
    {
      && 1 <= nextEventId && 1 <= nextTicketId && 1 <= nextCategoryId && 1 <= nextUserId
      && (forall id :: id in events ==> events[id].id == id && 1 <= id < nextEventId)
      && (forall i :: 0 <= i < |tickets| ==> 1 <= tickets[i].id < nextTicketId)
      && (forall i :: 0 <= i < |categories| ==> 1 <= categories[i].id < nextCategoryId)
      && (forall i :: 0 <= i < |users| ==> 1 <= users[i].id < nextUserId)
    }

    /** An empty database: every table empty and every sequence at 1. */
    constructor ()
      ensures Valid()
      ensures events == map[] && tickets == [] && categories == [] && users == []
      ensures nextEventId == 1 && nextTicketId == 1 && nextCategoryId == 1 && nextUserId == 1
    {
      events, tickets, categories, users := map[], [], [], [];
      nextEventId, nextTicketId, nextCategoryId, nextUserId := 1, 1, 1, 1;
    }
  }
}
