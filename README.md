# Ticketing backend: a Dafny model

This project models the business layer of a small ticketing marketplace written
in JavaScript (Express over PostgreSQL). Organizers publish events with a finite
number of places. Buyers purchase tickets against that capacity. Administrators
manage categories. The model covers:

- the atomic purchase transaction and the "my tickets" query;
- the event rules (who may create, change and delete an event) and the events
  table: insert, look-up, the published listing with search, category filter
  and paging, the partial update, and delete;
- registration and login: role normalisation, the duplicate-email check,
  password stripping, and signing `{ id, role }`;
- admin-only category creation, `slugify`, and the category listing;
- the bearer-token middleware, the events router's guards and routes, and the
  error handler's mapping from error code to HTTP status.

One module per source file:

- `ticket_repository.dfy`, `ticket_service.dfy`;
- `event_repository.dfy`, `event_service.dfy`, `events_routes.dfy`;
- `category_repository.dfy`, `category_service.dfy`;
- `auth_service.dfy`, `auth_middleware.dfy`, `error_middleware.dfy`.

`store.dfy` holds the rows of the schema and the database. `text.dfy`,
`sorting.dfy` and `pattern.dfy` hold the string functions, an insertion sort and
filter, and PostgreSQL's `LIKE`.

The database is one object, `Store.Database`. It has the four tables (events as
a map from id to row; tickets, categories and users as sequences) and the next
value of each SERIAL sequence. Repository operations are methods that update it
in place. Each such method is proved equal to a pure step function of the old
tables: `PurchaseStep`, `UpdateStep`, `DeleteStep`, `CategoryInsert`,
`RegisterStep`. The lemmas beside each step function state what the source
promises:

- conservation of places;
- no oversell over any sequence of purchases;
- a failure changes nothing;
- only the target row changes;
- uniqueness of slugs and emails;
- login after register.

Services and routers are classes whose dependencies are `const` fields, fixed
when the object is constructed.

Modelling choices:

- **Errors.** A thrown `Error` is a `Failure(code, message)` and an operation
  returns `Result<T>`. Errors raised by PostgreSQL itself carry their SQLSTATE:
  - 2201X for a negative OFFSET, 2201W for a negative LIMIT;
  - 23502 for a null in a NOT NULL column;
  - 23503 for deleting an event that has tickets;
  - 23505 for a duplicate category slug.

  The error handler answers all of these with 500.
- **Sequences.** A sequence value is used up even when the insert that drew it
  fails, so the model's counters advance on those paths too.
- **Money and time.** Money is in integer cents, matching the NUMERIC(10,2)
  columns. Timestamps are integers, and NOW() is a `now` parameter.
- **Collaborators.** The JWT verifier and signer and the password hasher are
  function-valued parameters (`check`, `sign`, `hash`, `compare`).
- **Defects.** A few behaviours of the source that are evidently unintended
  are modelled as written and noted in the doc comments:
  - The image route lets any organizer change any event.
  - Its response names the columns `date` and `remaining_capacity`, which
    the events table lacks.
  - `"Bearer "` with no token is "missing" for the router but "invalid" for
    the middleware.

Facts of the purchase core that the model keeps:

- `ticket.repository.js` does not check that `quantity` is positive. Only the
  ticket service does (`WellFormed`), so `PurchaseStep` accepts any quantity.
- Nothing in the schema keeps capacity or price non-negative. Non-negative
  capacity is proved from the capacity check and the service checks
  (`RunNeverOversells`, `CapacitiesNonNegative`), not assumed.
- The ticket listing is a plain array of joined rows.
- Insufficient capacity is the code `NOT_ENOUGH_CAPACITY`, which the error
  handler answers with 409.

## Model

| member | source | states |
|---|---|---|
| Store.Database.constructor | scripts/init-db.js:9-63 | An empty database: every table empty, every sequence at 1, and the id invariant holds. |
| TicketRepository.PurchaseTicket | src/repositories/ticket.repository.js:23-92 | The transaction updates the events and tickets tables (and the ticket sequence) exactly as `PurchaseStep` says, and leaves the event sequence, the categories and the users alone. |
| TicketRepository.PurchaseFailures | src/repositories/ticket.repository.js:40-52 | A purchase fails exactly when the event is missing or has fewer places than asked. A missing event gives NOT_FOUND, too few places give NOT_ENOUGH_CAPACITY, and a failure rolls back to the old tables. |
| TicketRepository.PurchaseSuccess | src/repositories/ticket.repository.js:54-85 | A success appends exactly one ticket for the caller, with the sequence's id. Its unit price is the event's price at that moment and its total is unit price times quantity. Capacity drops by the quantity and stays non-negative, the returned snapshot is the updated row, and no other event changes. |
| TicketRepository.PurchaseConserves | src/repositories/ticket.repository.js:48-85 | For every event, capacity plus the places sold on its tickets is the same after a purchase, whether it succeeds or fails. |
| TicketRepository.PurchaseExample | tests/integration/tickets.int.test.js:111-135 | Capacity 5 at price 100.00, buying 2, gives total 200.00 and capacity 3. |
| TicketRepository.RunNeverOversells | src/repositories/ticket.repository.js:48-52 | Over any sequence of purchases, an event's capacity stays non-negative and conservation holds. The places sold never exceed the starting capacity. |
| TicketRepository.AllSucceedSellsDemand | src/repositories/ticket.repository.js:48-79 | If every purchase of a burst succeeds, exactly the demanded places were sold and the demand fitted in the capacity. So a burst asking for more than the capacity has a failing purchase. |
| TicketRepository.LastPlaceSoldOnce | src/repositories/ticket.repository.js:48-52 | Two purchases of the last place: the first takes it, the second fails with NOT_ENOUGH_CAPACITY and changes nothing. |
| TicketRepository.ListTicketsByUser | src/repositories/ticket.repository.js:95-123 | Every listed item is a ticket of the user whose event exists. It carries that event's title, start date and location. |
| TicketRepository.ListTicketsExact | src/repositories/ticket.repository.js:109-112 | The listing holds exactly the user's tickets whose event exists, each as often as it is stored, ordered newest first. |
| TicketService.TicketService.Purchase | src/services/ticket.service.js:8-30 | No user gives UNAUTHENTICATED, and a missing or zero eventId or a non-positive quantity gives VALIDATION_ERROR. Neither touches the store. Otherwise the repository's outcome for the caller's id comes back unchanged, errors included. |
| TicketService.TicketService.ListMyTickets | src/services/ticket.service.js:32-41 | No user gives UNAUTHENTICATED. Otherwise the result is the repository's listing for the caller's id, and nothing changes. |
| TicketService.AcceptedPurchaseTakesPlaces | src/services/ticket.service.js:17-27 | A purchase the service accepts and the repository completes strictly lowers the event's capacity and raises its sold count by the same amount. |
| TicketService.MalformedExamples | src/services/ticket.service.js:17-21 | Missing fields, quantity 0, eventId 0 and negative quantities are rejected. A non-zero eventId with a positive quantity is accepted. |
| ErrorMiddleware.Handle | src/middlewares/error.middleware.js:3-37 | The error is passed on exactly when the headers were already sent. |
| ErrorMiddleware.HandleMatchesTable | src/middlewares/error.middleware.js:6-36 | The handler agrees with the code-to-status table: 400, 401, 401, 403, 404, 409. A known code replies with its status and the error's message, any other code gives 500 "Internal server error", and after the headers are sent the error is passed on. |
| ErrorMiddleware.ReplyShape | src/middlewares/error.middleware.js:11-36 | Every reply has one of the six statuses. A 500 body is the fixed text, and any other status carries the error's own message, so no internal message leaks. |
| ErrorMiddleware.BusinessCodesAreMapped | src/middlewares/error.middleware.js:11-33 | Each business code the services throw reaches its status with its message. EMAIL_EXISTS falls through to 500. |
| AuthMiddleware.BearerToken | eventos-backend/src/middlewares/auth.middleware.js:11 | The token taken from the header contains no space. |
| AuthMiddleware.BearerTokenRoundTrip | eventos-backend/src/middlewares/auth.middleware.js:7-11 | A header built as "Bearer " + token + (nothing, or a space and more), with a token free of spaces, gives that token back. |
| AuthMiddleware.AuthenticateCases | eventos-backend/src/middlewares/auth.middleware.js:4-20 | A missing header or one without "Bearer " gives 401 "Missing or invalid token", and "Bearer " alone gives 401 "Invalid token". Otherwise the verifier's verdict on the second field decides: the payload, or 401 "Invalid token". |
| EventRepository.TextOrNull | eventos-backend/src/repositories/event.repository.js:66 | An empty text becomes NULL; any other value is kept. |
| EventRepository.IdOrNull | eventos-backend/src/repositories/event.repository.js:68 | An id of 0 becomes NULL; any other value is kept. |
| EventRepository.CreateEvent | eventos-backend/src/repositories/event.repository.js:25-74 | One new row under the sequence's next id, holding the given fields with timestamps NOW(). No other table changes. |
| EventRepository.GetEventById | eventos-backend/src/repositories/event.repository.js:76-82 | A row is found exactly when the id is stored. |
| EventRepository.CreatedIsFound | eventos-backend/src/repositories/event.repository.js:40-82 | An inserted row is found under its id with the fields as given, and every other id's look-up is unchanged. |
| EventRepository.NumberOr | eventos-backend/src/repositories/event.repository.js:106-107 | `Number(x) \|\| d` is never 0 when `d` is not 0, and keeps any truthy number. |
| EventRepository.Window | eventos-backend/src/repositories/event.repository.js:127 | LIMIT/OFFSET keeps at most `size` rows, which are the rows from `offset` onwards in order. |
| EventRepository.OrderedExact | eventos-backend/src/repositories/event.repository.js:89-104 | The filtered rows hold every stored row that is published, matches `ILIKE '%' || search || '%'` as written (wildcards included) in its title or description, and matches the category, and no other row. There are as many as the count, sorted by start date. |
| EventRepository.ListEventsOutcome | eventos-backend/src/repositories/event.repository.js:106-140 | The listing fails exactly for a negative offset or size. Otherwise the page and size echo the defaulted numbers, the total counts every row the as-written ILIKE matches, whatever the page, and the items are the window of those rows at `(page - 1) * pageSize`. |
| EventRepository.TotalPagesBounds | eventos-backend/src/repositories/event.repository.js:139 | `Math.ceil(total / size) \|\| 1` is at least 1, is 1 for no rows, and is the least number of pages of `size` rows that hold `total` rows. |
| EventRepository.ListEventsItems | eventos-backend/src/repositories/event.repository.js:89-132 | A page holds at most pageSize rows, each stored, published and matching the as-written ILIKE search and the category, in start-date order. |
| EventRepository.ListedPlainSearch | eventos-backend/src/repositories/event.repository.js:89-102 | For a search without `%`, `_` and `\`, a row passes the WHERE clause exactly when it is published, in the category, and its title or description contains the search, ignoring case. |
| EventRepository.PlainSearchItems | eventos-backend/src/repositories/event.repository.js:89-132 | Every row on a page of a search without wildcards contains the search in its title or description, ignoring case. |
| EventRepository.WildcardSearchListed | eventos-backend/src/repositories/event.repository.js:92-95 | As written, a search for "_" lists a published event titled "a", though the title does not contain "_". |
| EventRepository.PagesAdjoin | eventos-backend/src/repositories/event.repository.js:106-128 | Page n+1 starts exactly where page n stops. |
| EventRepository.UnpublishedNeverListed | eventos-backend/src/repositories/event.repository.js:89-90 | An unpublished event is on no page, whatever the search. |
| EventRepository.SetAllColumns | eventos-backend/src/repositories/event.repository.js:148-166 | Applying the SET list column by column in mapping order gives the row stated field by field (`Patched`). |
| EventRepository.SetProvidedColumns | eventos-backend/src/repositories/event.repository.js:161-166 | Leaving out the columns whose key is undefined does not change the row that the SET list produces. |
| EventRepository.UpdateEvent | eventos-backend/src/repositories/event.repository.js:143-186 | The loop collects and numbers the SET list. The method then updates the events table exactly as `UpdateStep` says, and the tickets, with their price snapshots, are untouched. |
| EventRepository.NoMappedKeyIsRead | eventos-backend/src/repositories/event.repository.js:168-171 | A body with none of the ten mapped keys returns the stored row, or null, and writes nothing. |
| EventRepository.UpdateChangesOneRow | eventos-backend/src/repositories/event.repository.js:173-185 | A writing update changes one row only. Its id, organizer and creation time stay and `updatedAt` becomes NOW(). A given capacity replaces the old one and an absent one keeps it; every other row and the set of ids stay. |
| EventRepository.PatchedIdempotent | eventos-backend/src/repositories/event.repository.js:161-178 | Sending the same body twice leaves the row's columns as sending it once. |
| EventRepository.UpdateFailureKeepsTable | eventos-backend/src/repositories/event.repository.js:175-185 | The update fails exactly for a null into a NOT NULL column of an existing row. A failure or a missing row leaves the table as it was. |
| EventRepository.DeleteEvent | eventos-backend/src/repositories/event.repository.js:188-190 | The delete updates the events table exactly as `DeleteStep` says; no other table changes. |
| EventRepository.DeleteOutcome | eventos-backend/src/repositories/event.repository.js:188-190 | A delete removes exactly the row under the id, which is then no longer found. Otherwise, while the event has tickets, it fails and removes nothing. Deleting an absent id succeeds and changes nothing. |
| EventService.EventService.CreateEvent | eventos-backend/src/services/event.service.js:8-62 | A refused request leaves the store unchanged. An accepted one inserts the event with its defaults, owned by the caller, and keeps every capacity non-negative. |
| EventService.EventService.ListEvents | eventos-backend/src/services/event.service.js:64-81 | The result is the repository's listing under the defaulted query: search "", page 1, size 10. |
| EventService.EventService.GetEventById | eventos-backend/src/services/event.service.js:83-91 | The stored event, or NOT_FOUND when the id is absent. |
| EventService.EventService.UpdateEvent | eventos-backend/src/services/event.service.js:93-124 | A refused request leaves the store unchanged. Otherwise the repository's update takes effect, and no capacity becomes negative. |
| EventService.EventService.DeleteEvent | eventos-backend/src/services/event.service.js:126-150 | A refused request leaves the store unchanged. Otherwise the repository's delete takes effect, and its foreign-key failure is returned. |
| EventService.UpdateKeepsCapacities | eventos-backend/src/services/event.service.js:116-122 | An update the service lets through never leaves an event with negative capacity. |
| EventService.CreateCheckOrder | eventos-backend/src/services/event.service.js:9-59 | The checks come in order: no user gives UNAUTHENTICATED, then a role other than ORGANIZER or ADMIN gives FORBIDDEN. Creation is allowed exactly for such a user with complete fields and positive capacity. The new event then belongs to the caller and is unpublished unless asked; an empty imageUrl and a 0 categoryId become null. |
| EventService.RoleExamples | eventos-backend/src/services/event.service.js:15-16 | "organizer" and "Admin" may create; "user" and no role may not. |
| EventService.ManageCheck | eventos-backend/src/services/event.service.js:100-120 | A missing event is reported before ownership. Only the organizer or an ADMIN gets past update and delete, and then an update is refused exactly for a given capacity that is not positive. |
| EventService.ListDefaults | eventos-backend/src/services/event.service.js:65-80 | A missing search becomes "". A missing, zero or non-numeric page becomes 1 and such a size becomes 10; a truthy page is kept. Re-applying the default in the repository changes nothing. |
| EventService.DefaultListing | eventos-backend/src/services/event.service.js:64-81 | An empty query lists the first ten published events in start-date order. |
| EventsRoutes.EventsRouter.List | src/routes/events.routes.js:46-53 | Replies 200 with the service's page, or with the error handler's answer to its failure. |
| EventsRoutes.EventsRouter.Get | src/routes/events.routes.js:56-63 | Replies 200 with the stored event, or 404 "Event not found". |
| EventsRoutes.EventsRouter.Create | src/routes/events.routes.js:66-73 | Replies with the guards' answer, then with the service's failure mapped to its status (store unchanged), or 201 with the inserted event. On success the event sequence advances by one; the tickets, categories, users and their sequences never change. |
| EventsRoutes.EventsRouter.Update | src/routes/events.routes.js:76-87 | Only authentication precedes the service. Replies with the guard's answer, with the service's failure, or 200 with the updated row or null, and the events table is updated as `UpdateStep` says. The event sequence, the tickets, categories, users and their sequences never change. |
| EventsRoutes.EventsRouter.Delete | src/routes/events.routes.js:90-97 | Only authentication precedes the service. Replies with the guard's answer, with the service's or database's failure, or 204. On success the events table is as `DeleteStep` leaves it. The event sequence, the tickets, categories, users and their sequences never change. |
| EventsRoutes.EventsRouter.UploadImage | src/routes/events.routes.js:100-152 | After both guards: 400 without a file and 404 for an absent row, both leaving the store unchanged. Otherwise the row's imageUrl becomes "/uploads/events/" + filename and updatedAt NOW(), and the reply is 200 with the row. |
| EventsRoutes.GuardRejectsMissingToken | src/routes/events.routes.js:12-22 | No header, a header without "Bearer ", and "Bearer " alone all give 401 "Missing Authorization header". For "Bearer " alone the middleware says "Invalid token" instead. |
| EventsRoutes.GuardVerifiesToken | src/routes/events.routes.js:18-31 | For "Bearer " + a token free of spaces, the route passes with the payload exactly when the verifier accepts that token, else 401 "Invalid or expired token". |
| EventsRoutes.RoleGuardAfterAuth | src/routes/events.routes.js:33-43 | After authentication the role guard can only answer 403. It passes exactly the users whose upper-cased role is ORGANIZER or ADMIN. |
| EventsRoutes.PlainUserStoppedOnlyOnPost | src/routes/events.routes.js:66-90 | A signed-in USER is stopped with 403 on POST but let through to the service by PUT and DELETE. |
| EventsRoutes.ServiceErrorsStatuses | src/routes/events.routes.js:51-95 | Each service error on these routes gets its handler status: 401, 403, 404 or 400. The database errors get 500. |
| Pattern.WildcardsLeak | eventos-backend/src/repositories/event.repository.js:92-95 | As written, a search for "_" matches "a" and a search for "100%" matches "1000", though neither text contains the search. |
| Pattern.AgreeOnPlainSearch | eventos-backend/src/repositories/event.repository.js:92-95 | For a search without `%`, `_` and `\`, the ILIKE test as written and the case-insensitive substring test agree. |
| CategoryRepository.Slugify | src/repositories/category.repository.js:4-12 | A slug is no longer than its input and consists only of `[a-z0-9-]`. |
| CategoryRepository.SlugifyWord | src/repositories/category.repository.js:8-11 | A word of ASCII letters, digits and hyphens becomes its lower-case form. |
| CategoryRepository.SlugifyIdempotent | src/repositories/category.repository.js:4-12 | Slugifying a slug gives it back. |
| CategoryRepository.SlugifyTrimmed | src/repositories/category.repository.js:9 | Whitespace around the name does not change its slug. |
| CategoryRepository.SlugifyInteriorRun | src/repositories/category.repository.js:10-11 | A whitespace run between two visible parts becomes exactly one `-`, and each side is slugified on its own. |
| CategoryRepository.SlugifyTwoWords | src/repositories/category.repository.js:8-11 | Two letter words joined by a space give the two lower-cased words joined by `-`. |
| CategoryRepository.SlugifyLower | src/repositories/category.repository.js:8 | Letter case makes no difference to the slug. |
| CategoryRepository.ExecuteInsert | src/repositories/category.repository.js:16-19 | The `INSERT` of a name and a slug updates the categories table as `InsertRow` says, and the sequence advances by one even when the insert fails. Nothing else changes. |
| CategoryRepository.CreateCategory | src/repositories/category.repository.js:14-21 | The slug is computed from the name, then the insert updates the categories table as `CategoryInsert` says. The sequence advances by one even when the insert fails. |
| CategoryRepository.InsertRowOutcome | src/repositories/category.repository.js:16-19 | Inserting a name and a slug either appends one row holding both and NOW(), or fails with the unique violation on an already stored slug and changes nothing. Either way slugs stay unique. |
| CategoryRepository.CategoryInsertOutcome | src/repositories/category.repository.js:14-21 | An insert either appends one row with the name, its slug and NOW(), or fails with the unique violation on an already stored slug and changes nothing. Either way slugs stay unique. |
| CategoryRepository.SlugCollision | scripts/init-db.js:13 | Once a name is stored, the same name lower-cased and with whitespace around it is refused: its slug is taken. |
| CategoryRepository.ListCategories | src/repositories/category.repository.js:23-26 | The listing is a permutation of the table ordered by name. |
| CategoryService.CreateCheckOrder | src/services/category.service.js:8-22 | Authentication is checked first, then the ADMIN role (upper-cased), then a non-empty name. Only an administrator with a name gets through, and a refusal is one of the three errors. |
| CategoryService.RoleExamples | src/services/category.service.js:13-17 | "admin" and "Admin" pass; no role and "ORGANIZER" get FORBIDDEN. |
| CategoryService.CategoryService.CreateCategory | src/services/category.service.js:7-24 | A refused request stores nothing. An accepted one hands exactly the name to the repository and returns its outcome. |
| CategoryService.CategoryService.ListCategories | src/services/category.service.js:26-28 | The repository's listing unchanged. |
| AuthService.NormalizeRole | eventos-backend/src/services/auth.service.js:18-22 | The stored role is always USER, ORGANIZER or ADMIN. |
| AuthService.NormalizeRoleCases | eventos-backend/src/services/auth.service.js:18-22 | An allowed role in any case is kept, upper-cased. Anything else, including no role or "", becomes USER. Normalising twice changes nothing. |
| AuthService.NormalizeRoleExamples | tests/integration/auth.int.test.js:27 | "admin" becomes ADMIN and "Organizer" becomes ORGANIZER; "superuser", "" and no role become USER. |
| AuthService.StripRoundTrip | eventos-backend/src/services/auth.service.js:41-42 | Stripping loses the password and nothing else: it is undone exactly by putting the password back. |
| AuthService.FindByEmail | src/repositories/user.repository.js:38-47 | A user is found exactly when some row has that email, and the found row is a stored row with that email. |
| AuthService.RegisterOutcome | eventos-backend/src/services/auth.service.js:10-43 | Missing credentials are refused before the lookup, and a known email is refused with EMAIL_EXISTS; neither touches the table. Success happens exactly with credentials, a name and an unused email. It then appends one row with the next id, the hash of the password and the normalised role, and returns that row without its password. |
| AuthService.RegisterKeepsEmailsUnique | scripts/init-db.js:24 | Registration keeps emails unique. |
| AuthService.LoginOutcome | eventos-backend/src/services/auth.service.js:45-77 | Missing credentials are refused first. An unknown email and a wrong password get the same INVALID_CREDENTIALS error. A login succeeds only for a stored user whose password hash matches, and signs exactly that user's id and role. |
| AuthService.RegisterThenLogin | eventos-backend/src/services/auth.service.js:31-69 | After a successful registration, logging in with the same email and password succeeds, provided the hasher accepts its own hash. The session carries the new id and the normalised role. |
| AuthService.AuthService.Register | eventos-backend/src/services/auth.service.js:10-43 | The users table and its sequence change exactly as `RegisterStep` says; no other table changes. |
| AuthService.AuthService.Login | eventos-backend/src/services/auth.service.js:45-77 | The result is `LoginStep` on the current users table, and nothing changes. |

## Left out

- Concurrency is not modelled. `BEGIN`, `SELECT ... FOR UPDATE`, `COMMIT` and `ROLLBACK` become one atomic step per purchase. No-oversell is proved for every serial order of a burst, which is what the row lock guarantees.
- `StorageFailure` is not modelled: lost connections and aborted transactions are I/O. The database errors that follow from the inputs are modelled.
- Floating point is not modelled. `Number(row.price)` and `unitPrice * quantity` are JavaScript doubles; the model uses exact integer cents.
- The INT and NUMERIC(10,2) column ranges are not modelled, so an overflowing capacity or total is not rejected.
- `mapTicket`, `mapEvent` and `mapUser` only rename columns. They are the field names of the `Ticket`, `Event` and `User` datatypes.
- The SQL text is not modelled. The `where` and `params` arrays that `listEvents` pushes into, and the placeholder numbers, exist only as the result they select. The placeholder counter of `updateEvent` is kept in its loop.
- CategoryRepository.Slugify: `normalize('NFKD')` is taken as already applied to the input, since it needs Unicode tables. `toLowerCase` and the role checks' `toUpperCase` are modelled on ASCII letters only.
- Pattern.ILike: case folding is ASCII only.
- CategoryRepository.ListCategories: orders names by code point (the C collation). A database with another collation orders differently; neither order is stated for equal names.
- EventRepository.ListEvents: the order of events with the same start date is the one the model picks. The source's SQL leaves that order open, and no lemma depends on it.
- TicketRepository.ListTicketsByUser: the order of tickets with the same creation time is likewise left open.
- Only the foreign key from tickets to events is modelled, for the delete. The foreign keys to `categories` and `users` are not: no operation of this core deletes those rows, and the ids come from the caller.
- The `users.email` UNIQUE constraint is not modelled as a check of its own. The service's duplicate check is its only path here, and `RegisterKeepsEmailsUnique` proves it keeps the constraint.
- `Number(req.params.id)` is not modelled: a route id is an integer, so a non-numeric `:id` (NaN in the query) is not covered.
- The JSON bodies are typed. A request field is a value of its column's type or absent, and a wrong-typed value is not modelled.
- The upload middleware (multer) and the file written to disk are out of scope. The image route gets the stored filename, or none.
- bcrypt, its salts and jsonwebtoken are out of scope. `hash`, `compare`, `sign` and the verifier `check` are parameters; an expired token is one that `check` refuses.
- `utils/jwt`, `utils/password`, `user.repository` `findById` and the upload middleware are not part of this model.
- AuthMiddleware.Verify: the empty token is taken as refused before `check` is consulted, as jsonwebtoken refuses an empty token. `utils/jwt` is not part of this model, so this is the library's behaviour, not a fact of the source.
- `console.error` in the error handler is not modelled, since it only logs.
- The `date` and `remainingCapacity` keys of the image route's reply name columns the table does not have, so they are always undefined and absent from `ImageRow`.
- `categories.routes.js` and the other routers and controllers are left out; they only wire the services to Express.
- The repository's `createCategory` is modelled only as the service calls it, always with a name. A direct call without a name inserts `undefined`.
- `ListTicketsByUser` and `ListCategories` are functions of the tables. Reading twice with no write in between therefore gives the same result, and no separate lemma states it.

## Findings

| source | as written | input that shows it | evidently intended | confidence | as-written member | corrected member |
|---|---|---|---|---|---|---|
| eventos-backend/src/repositories/event.repository.js:92-95 | The search text goes into `'%' + search + '%'` for ILIKE without escaping, so `%`, `_` and `\` typed by a visitor act as wildcards. | Search "_" on a title "a"; search "100%" on a title "1000". | Titles or descriptions that contain the search text, ignoring case. | not executed | Pattern.SearchAsWritten (Pattern.WildcardsLeak) | Pattern.SearchLiteral (Pattern.AgreeOnPlainSearch; EventRepository.ListedPlainSearch and EventRepository.PlainSearchItems state what the listing means for searches without wildcards) |
