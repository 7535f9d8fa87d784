/** The events repository: insert, look-up by id, the published listing with
    search, category filter and paging, the partial update that writes only
    the keys it is given, and delete. */
module EventRepository {
  import opened Store
  import opened Pattern
  import Sorting

  /** The object `createEvent` receives; the service has already decided
      every field. */
  datatype NewEvent = NewEvent(
    title: string,
    description: string,
    location: string,
    startDate: int,
    endDate: Option<int>,
    capacity: int,
    price: int,
    imageUrl: Option<string>,
    isPublished: bool,
    categoryId: Option<int>,
    organizerId: int)

  /** `text || null`: an empty text is stored as NULL. */
  function TextOrNull(o: Option<string>): (r: Option<string>)
    ensures r.Some? <==> o.Some? && o.value != ""
    ensures r.Some? ==> r == o
  {
    if o == Some("") then None else o
  }

  /** `id || null`: the id 0 is stored as NULL. */
  function IdOrNull(o: Option<int>): (r: Option<int>)
    ensures r.Some? <==> Truthy(o)
    ensures r.Some? ==> r == o
  {
    if o == Some(0) then None else o
  }

  /** The row `INSERT ... RETURNING *` gives back: the sequence's next id,
      both timestamps the insert's NOW(). A date is never empty here, so
      `endDate || null` keeps the end date as given. */
  function Inserted(data: NewEvent, id: int, now: int): Event {
    Event(id, data.title, data.description, data.location, data.startDate, data.endDate,
          data.capacity, data.price, TextOrNull(data.imageUrl), data.isPublished, now, now,
          IdOrNull(data.categoryId), data.organizerId)
  }

  /** `createEvent`: one new row under a fresh id; nothing else changes. */
  method CreateEvent(db: Database, data: NewEvent, now: int) returns (e: Event)
    requires db.Valid()
    modifies db
    ensures db.Valid()
    ensures e == Inserted(data, old(db.nextEventId), now)
    ensures e.id !in old(db.events) && db.events == old(db.events)[e.id := e]
    ensures db.nextEventId == old(db.nextEventId) + 1
    ensures db.tickets == old(db.tickets) && db.nextTicketId == old(db.nextTicketId)
    ensures db.categories == old(db.categories) && db.nextCategoryId == old(db.nextCategoryId)
    ensures db.users == old(db.users) && db.nextUserId == old(db.nextUserId)
  {
    e := Inserted(data, db.nextEventId, now);
    db.events := db.events[e.id := e];
    db.nextEventId := db.nextEventId + 1;
  }

  /** `getEventById`: the row stored under `id`, or null. */
  function GetEventById(events: map<int, Event>, id: int): (r: Option<Event>)
    ensures r.Some? <==> id in events
  {
    if id in events then Some(events[id]) else None
  }

  /** An inserted row is found under its id with every field as given. */
  lemma CreatedIsFound(events: map<int, Event>, data: NewEvent, id: int, now: int)
    requires id !in events
    ensures var e := Inserted(data, id, now);
            && GetEventById(events[id := e], id) == Some(e)
            && e.title == data.title && e.capacity == data.capacity && e.price == data.price
            && e.organizerId == data.organizerId && e.isPublished == data.isPublished
            && e.createdAt == now && e.updatedAt == now
            && (forall other :: other != id ==> GetEventById(events[id := e], other) == GetEventById(events, other))
  {
  }

  // ---------------------------------------------------------------------
  // Listing

  /** `Number(x) || d`: a missing, non-numeric or zero value gives `d`. */
  function NumberOr(o: Option<int>, d: int): (n: int)
    ensures n != 0 || d == 0
    ensures Truthy(o) ==> n == o.value
  {
    if Truthy(o) then o.value else d
  }

  /** The arguments of `listEvents`. */
  datatype ListParams = ListParams(search: string, categoryId: Option<int>, page: Option<int>, pageSize: Option<int>)

  /** `{ items, total, page, pageSize, totalPages }`. */
  datatype Page = Page(items: seq<Event>, total: int, page: int, pageSize: int, totalPages: int)

  /** The `WHERE` clause: published, matching `ILIKE '%' || search || '%'` in
      the title or the description when there is a search, and in the
      category when one is given. The search is not escaped, so `%`, `_` and
      `\` in it act as wildcards. */
  predicate Listed(e: Event, search: string, categoryId: Option<int>) {
    && e.isPublished
    && (search == "" || SearchAsWritten(e.title, search) || SearchAsWritten(e.description, search))
    && (Truthy(categoryId) ==> e.categoryId == categoryId)
  }

  function MatchingIds(events: map<int, Event>, search: string, categoryId: Option<int>): set<int> {
    set id | id in events && Listed(events[id], search, categoryId)
  }

  lemma NoMemberEmpty(s: set<int>)
    requires forall y :: y !in s
    ensures s == {}
  {
    assert forall y :: y in s <==> y in {};
  }

  lemma HasMember(s: set<int>)
    requires s != {}
    ensures exists x :: x in s
  {
    if forall y :: y !in s {
      NoMemberEmpty(s);
      assert false;
    }
  }

  lemma {:induction false} MinExists(s: set<int>)
    requires s != {}
    ensures exists k :: k in s && forall j :: j in s ==> k <= j
    decreases |s|
  {
    HasMember(s);
    var x :| x in s;
    var rest := s - {x};
    if rest != {} {
      MinExists(rest);
      var m :| m in rest && forall j :: j in rest ==> m <= j;
      var k := if x < m then x else m;
      forall j | j in s ensures k <= j {
        if j != x { assert j in rest; }
      }
    } else {
      forall j | j in s ensures x <= j {
        assert j !in rest;
      }
    }
  }

  /** The ids of `s` in increasing order: the order rows come in before the
      `ORDER BY`. */
  function SortedIds(s: set<int>): (r: seq<int>)
    ensures |r| == |s|
    ensures forall k :: k in r <==> k in s
    ensures forall i :: 0 <= i < |r| ==> r[i] in s
    decreases |s|
  {
    if s == {} then []
    else
      MinExists(s);
      var k :| k in s && forall j :: j in s ==> k <= j;
      [k] + SortedIds(s - {k})
  }

  /** `ORDER BY start_date ASC`. */
  function EarlierStart(a: Event, b: Event): bool {
    a.startDate <= b.startDate
  }

  /** The rows one id sequence selects from the table. */
  function RowsOf(events: map<int, Event>, ids: seq<int>): (rows: seq<Event>)
    requires forall i :: 0 <= i < |ids| ==> ids[i] in events
    ensures |rows| == |ids| && forall i :: 0 <= i < |ids| ==> rows[i] == events[ids[i]]
  {
    seq(|ids|, i requires 0 <= i < |ids| => events[ids[i]])
  }

  /** Every row the `WHERE` clause selects, ordered by start date. */
  function Ordered(events: map<int, Event>, search: string, categoryId: Option<int>): seq<Event> {
    var ids := SortedIds(MatchingIds(events, search, categoryId));
    Sorting.Sort(RowsOf(events, ids), EarlierStart)
  }

  /** `Math.ceil(total / size) || 1`. */
  function TotalPages(total: nat, size: int): int
    requires size > 0
  {
    var pages := (total + size - 1) / size;
    if pages == 0 then 1 else pages
  }

  /** `LIMIT size OFFSET offset` on an ordered result. */
  function Window<T>(s: seq<T>, offset: nat, size: nat): (w: seq<T>)
    ensures |w| == if offset >= |s| then 0 else if size < |s| - offset then size else |s| - offset
    ensures forall i :: 0 <= i < |w| ==> offset + i < |s| && w[i] == s[offset + i]
  {
    var lo := if offset < |s| then offset else |s|;
    var hi := if offset + size < |s| then offset + size else |s|;
    s[lo..hi]
  }

  const OFFSET_NEGATIVE := Failure("2201X", "OFFSET must not be negative")
  const LIMIT_NEGATIVE := Failure("2201W", "LIMIT must not be negative")

  /** `listEvents`: the matching count, and the page of matching rows at
      `(page - 1) * pageSize`. PostgreSQL refuses a negative OFFSET, then a
      negative LIMIT. */
  function ListEvents(events: map<int, Event>, p: ListParams): Result<Page> {
    var pageNum := NumberOr(p.page, 1);
    var sizeNum := NumberOr(p.pageSize, 10);
    var offset := (pageNum - 1) * sizeNum;
    if offset < 0 then Err(OFFSET_NEGATIVE)
    else if sizeNum < 0 then Err(LIMIT_NEGATIVE)
    else
      var total := |MatchingIds(events, p.search, p.categoryId)|;
      var items := Window(Ordered(events, p.search, p.categoryId), offset, sizeNum);
      Ok(Page(items, total, pageNum, sizeNum, TotalPages(total, sizeNum)))
  }

  /** The matching rows, sorted, include each matching row and no other. */
  lemma OrderedExact(events: map<int, Event>, search: string, categoryId: Option<int>)
    ensures var all := Ordered(events, search, categoryId);
            && |all| == |MatchingIds(events, search, categoryId)|
            && Sorting.Sorted(all, EarlierStart)
            && (forall e :: e in all ==> e in events.Values && Listed(e, search, categoryId))
            && (forall id :: id in events && Listed(events[id], search, categoryId) ==> events[id] in all)
  {
    var ids := SortedIds(MatchingIds(events, search, categoryId));
    var rows := RowsOf(events, ids);
    var all := Ordered(events, search, categoryId);
    Sorting.SortMembers(rows, EarlierStart);
    Sorting.SortSorted(rows, EarlierStart);
    forall e | e in all ensures e in events.Values && Listed(e, search, categoryId) {
      assert e in rows;
      var j :| 0 <= j < |rows| && rows[j] == e;
      assert ids[j] in ids;
    }
    forall id | id in events && Listed(events[id], search, categoryId) ensures events[id] in all {
      assert id in ids;
      var j :| 0 <= j < |ids| && ids[j] == id;
      assert rows[j] == events[id];
    }
  }

  /** `Math.ceil(total / size) || 1` counts the pages of `size` rows that hold
      `total` rows, and is 1 when there are none. */
  lemma TotalPagesBounds(total: nat, size: int)
    requires size > 0
    ensures TotalPages(total, size) >= 1
    ensures total == 0 ==> TotalPages(total, size) == 1
    ensures total > 0 ==> (TotalPages(total, size) - 1) * size < total <= TotalPages(total, size) * size
  {
    var q := (total + size - 1) / size;
    var r := (total + size - 1) % size;
    assert total + size - 1 == q * size + r && 0 <= r < size;
    if total > 0 {
      assert q * size > 0;
      assert q >= 1;
      assert (q - 1) * size == q * size - size;
    }
  }

  /** The page's shape: an error exactly for a negative offset or size;
      otherwise the page and size echo the defaulted numbers, the total counts
      every matching row whatever the page, and the items are the window of
      the ordered matches at `(page - 1) * pageSize`. */
  lemma ListEventsOutcome(events: map<int, Event>, p: ListParams)
    ensures var pageNum := NumberOr(p.page, 1);
            var sizeNum := NumberOr(p.pageSize, 10);
            var r := ListEvents(events, p);
            && (r.Err? <==> (pageNum - 1) * sizeNum < 0 || sizeNum < 0)
            && (r.Ok? ==>
                  && sizeNum > 0
                  && r.value.page == pageNum && r.value.pageSize == sizeNum
                  && r.value.total == |MatchingIds(events, p.search, p.categoryId)|
                  && r.value.totalPages == TotalPages(r.value.total, sizeNum)
                  && r.value.items == Window(Ordered(events, p.search, p.categoryId), (pageNum - 1) * sizeNum, sizeNum))
  {
    var sizeNum := NumberOr(p.pageSize, 10);
    assert sizeNum != 0;
  }

  /** A window of a start-ordered sequence is start-ordered and holds rows
      of that sequence only. */
  lemma WindowOfSorted(s: seq<Event>, offset: nat, size: nat)
    requires Sorting.Sorted(s, EarlierStart)
    ensures var w := Window(s, offset, size);
            && Sorting.Sorted(w, EarlierStart)
            && forall e :: e in w ==> e in s
  {
    var w := Window(s, offset, size);
    forall i, j | 0 <= i < j < |w| ensures EarlierStart(w[i], w[j]) {
      assert w[i] == s[offset + i] && w[j] == s[offset + j];
    }
    forall e | e in w ensures e in s {
      var i :| 0 <= i < |w| && w[i] == e;
      assert s[offset + i] == e;
    }
  }

  /** A page holds at most `pageSize` rows, all stored, published and
      matching, in start-date order. */
  lemma ListEventsItems(events: map<int, Event>, p: ListParams)
    ensures var r := ListEvents(events, p);
            r.Ok? ==>
              var items := r.value.items;
              && |items| <= r.value.pageSize
              && (forall e :: e in items ==> e in events.Values && Listed(e, p.search, p.categoryId))
              && Sorting.Sorted(items, EarlierStart)
  {
    var r := ListEvents(events, p);
    if r.Ok? {
      ListEventsOutcome(events, p);
      OrderedExact(events, p.search, p.categoryId);
      var offset := (NumberOr(p.page, 1) - 1) * NumberOr(p.pageSize, 10);
      WindowOfSorted(Ordered(events, p.search, p.categoryId), offset, NumberOr(p.pageSize, 10));
    }
  }

  lemma WindowAdjoin<T>(s: seq<T>, offset: nat, size: nat)
    ensures Window(s, offset, size) + Window(s, offset + size, size) == Window(s, offset, 2 * size)
  {
    var lo := if offset < |s| then offset else |s|;
    var mid := if offset + size < |s| then offset + size else |s|;
    var hi := if offset + 2 * size < |s| then offset + 2 * size else |s|;
    assert Window(s, offset, size) == s[lo..mid];
    assert Window(s, offset + size, size) == s[mid..hi];
    assert s[lo..mid] + s[mid..hi] == s[lo..hi];
  }

  /** Pages follow one another: the rows of page `n + 1` start right where
      those of page `n` stop. */
  lemma PagesAdjoin(events: map<int, Event>, search: string, categoryId: Option<int>, n: int, size: int)
    requires n >= 1 && size >= 1
    ensures var all := Ordered(events, search, categoryId);
            var here := ListEvents(events, ListParams(search, categoryId, Some(n), Some(size)));
            var next := ListEvents(events, ListParams(search, categoryId, Some(n + 1), Some(size)));
            && here.Ok? && next.Ok?
            && here.value.items + next.value.items == Window(all, (n - 1) * size, 2 * size)
  {
    var offset := (n - 1) * size;
    NextOffset(n, size);
    var all := Ordered(events, search, categoryId);
    var ph := ListParams(search, categoryId, Some(n), Some(size));
    var pn := ListParams(search, categoryId, Some(n + 1), Some(size));
    PageItems(events, ph, n, size, offset);
    PageItems(events, pn, n + 1, size, offset + size);
    ConsecutivePages(ListEvents(events, ph), ListEvents(events, pn), all, offset, size);
  }

  lemma ConsecutivePages(here: Result<Page>, next: Result<Page>, all: seq<Event>, offset: nat, size: nat)
    requires here.Ok? && here.value.items == Window(all, offset, size)
    requires next.Ok? && next.value.items == Window(all, offset + size, size)
    ensures here.value.items + next.value.items == Window(all, offset, 2 * size)
  {
    WindowAdjoin(all, offset, size);
  }

  lemma NextOffset(n: int, size: int)
    requires n >= 1 && size >= 1
    ensures (n - 1) * size >= 0 && (n + 1 - 1) * size == (n - 1) * size + size
  {
    assert (n + 1 - 1) * size == n * size;
  }

  /** Page `n` of `size` rows, for positive `n` and `size`, holds the rows
      from `offset = (n - 1) * size` on. */
  lemma PageItems(events: map<int, Event>, p: ListParams, n: int, size: int, offset: nat)
    requires n >= 1 && size >= 1 && p.page == Some(n) && p.pageSize == Some(size)
    requires offset == (n - 1) * size
    ensures var r := ListEvents(events, p);
            r.Ok? && r.value.items == Window(Ordered(events, p.search, p.categoryId), offset, size)
  {
    assert NumberOr(p.page, 1) == n && NumberOr(p.pageSize, 10) == size;
    ListEventsOutcome(events, p);
  }

  /** For a search without `%`, `_` and `\`, the `WHERE` clause is the
      substring test the search box means: a row is listed exactly when it is
      published, in the category, and its title or description contains the
      search, ignoring case. */
  lemma ListedPlainSearch(e: Event, search: string, categoryId: Option<int>)
    requires Plain(search)
    ensures Listed(e, search, categoryId) <==>
              && e.isPublished
              && (search == "" || SearchLiteral(e.title, search) || SearchLiteral(e.description, search))
              && (Truthy(categoryId) ==> e.categoryId == categoryId)
  {
    AgreeOnPlainSearch(e.title, search);
    AgreeOnPlainSearch(e.description, search);
  }

  /** Every row on a page of a plain search contains the search in its title
      or its description, ignoring case. */
  lemma PlainSearchItems(events: map<int, Event>, p: ListParams)
    requires Plain(p.search)
    ensures var r := ListEvents(events, p);
            r.Ok? ==> forall e :: e in r.value.items ==>
                        p.search == "" || SearchLiteral(e.title, p.search) || SearchLiteral(e.description, p.search)
  {
    ListEventsItems(events, p);
    forall e | e in events.Values && Listed(e, p.search, p.categoryId)
      ensures p.search == "" || SearchLiteral(e.title, p.search) || SearchLiteral(e.description, p.search)
    {
      ListedPlainSearch(e, p.search, p.categoryId);
    }
  }

  /** As written, a search for "_" lists a published event titled "a",
      though the title does not contain "_". */
  lemma WildcardSearchListed(e: Event)
    requires e.isPublished && e.title == "a"
    ensures Listed(e, "_", None) && !SearchLiteral(e.title, "_")
  {
    UnderscoreLeaks();
  }

  /** An unpublished event is on no page, whatever the search. */
  lemma UnpublishedNeverListed(events: map<int, Event>, p: ListParams, e: Event)
    requires !e.isPublished
    ensures var r := ListEvents(events, p);
            r.Ok? ==> e !in r.value.items
  {
    ListEventsItems(events, p);
  }

  // ---------------------------------------------------------------------
  // Update

  /** A key of the update body: `Absent` when it is `undefined`. */
  datatype Field<T> = Absent | Null | Value(value: T)

  /** The update body. Only the ten keys of the column mapping reach the
      table; `organizerId` stands for the keys that are ignored. */
  datatype EventPatch = EventPatch(
    title: Field<string>,
    description: Field<string>,
    location: Field<string>,
    startDate: Field<int>,
    endDate: Field<int>,
    capacity: Field<int>,
    price: Field<int>,
    imageUrl: Field<string>,
    isPublished: Field<bool>,
    categoryId: Field<int>,
    organizerId: Field<int>)

  /** The entries of the key-to-column mapping, in its order. */
  datatype Column =
    | Title | Description | Location | StartDate | EndDate
    | Capacity | Price | ImageUrl | IsPublished | CategoryId

  const Mapping: seq<Column> :=
    [Title, Description, Location, StartDate, EndDate, Capacity, Price, ImageUrl, IsPublished, CategoryId]

  /** `data[key] !== undefined`. */
  predicate Provided(p: EventPatch, c: Column) {
    match c
    case Title => !p.title.Absent?
    case Description => !p.description.Absent?
    case Location => !p.location.Absent?
    case StartDate => !p.startDate.Absent?
    case EndDate => !p.endDate.Absent?
    case Capacity => !p.capacity.Absent?
    case Price => !p.price.Absent?
    case ImageUrl => !p.imageUrl.Absent?
    case IsPublished => !p.isPublished.Absent?
    case CategoryId => !p.categoryId.Absent?
  }

  /** The columns the loop puts in the `SET` list, in mapping order. */
  function ProvidedColumns(p: EventPatch, cols: seq<Column>): (r: seq<Column>)
    ensures forall i :: 0 <= i < |r| ==> Provided(p, r[i])
    ensures |r| <= |cols|
  {
    if cols == [] then []
    else
      var last := cols[|cols| - 1];
      ProvidedColumns(p, cols[..|cols| - 1]) + (if Provided(p, last) then [last] else [])
  }

  /** An explicit null for a NOT NULL column. */
  predicate NullIntoNotNull(p: EventPatch) {
    || p.title.Null? || p.description.Null? || p.location.Null? || p.startDate.Null?
    || p.capacity.Null? || p.price.Null? || p.isPublished.Null?
  }

  function Keep<T>(f: Field<T>, current: T): T {
    if f.Value? then f.value else current
  }

  function KeepNullable<T>(f: Field<T>, current: Option<T>): Option<T> {
    match f
    case Absent => current
    case Null => None
    case Value(v) => Some(v)
  }

  /** `column = $n` for one column of the `SET` list. */
  function SetColumn(e: Event, p: EventPatch, c: Column): Event {
    match c
    case Title => e.(title := Keep(p.title, e.title))
    case Description => e.(description := Keep(p.description, e.description))
    case Location => e.(location := Keep(p.location, e.location))
    case StartDate => e.(startDate := Keep(p.startDate, e.startDate))
    case EndDate => e.(endDate := KeepNullable(p.endDate, e.endDate))
    case Capacity => e.(capacity := Keep(p.capacity, e.capacity))
    case Price => e.(price := Keep(p.price, e.price))
    case ImageUrl => e.(imageUrl := KeepNullable(p.imageUrl, e.imageUrl))
    case IsPublished => e.(isPublished := Keep(p.isPublished, e.isPublished))
    case CategoryId => e.(categoryId := KeepNullable(p.categoryId, e.categoryId))
  }

  /** The `SET` list applied column by column, in order. */
  function SetColumns(e: Event, p: EventPatch, cols: seq<Column>): Event {
    if cols == [] then e
    else SetColumn(SetColumns(e, p, cols[..|cols| - 1]), p, cols[|cols| - 1])
  }

  /** The row after the update's `SET`, stated field by field: each mapped
      key that is not `undefined` replaces its column (null clears a nullable
      one); the id, the organizer and the timestamps are not in the mapping. */
  function Patched(e: Event, p: EventPatch): Event {
    e.(title := Keep(p.title, e.title),
       description := Keep(p.description, e.description),
       location := Keep(p.location, e.location),
       startDate := Keep(p.startDate, e.startDate),
       endDate := KeepNullable(p.endDate, e.endDate),
       capacity := Keep(p.capacity, e.capacity),
       price := Keep(p.price, e.price),
       imageUrl := KeepNullable(p.imageUrl, e.imageUrl),
       isPublished := Keep(p.isPublished, e.isPublished),
       categoryId := KeepNullable(p.categoryId, e.categoryId))
  }

  /** The outcome of `updateEvent` and the events table after it. */
  datatype Update = Update(result: Result<Option<Event>>, events: map<int, Event>)

  const NOT_NULL_VIOLATION := Failure("23502", "null value violates not-null constraint")

  /** With no mapped key given, the row is read, never written. Otherwise one
      `UPDATE` sets the given columns and `updated_at`: no row under `id`
      gives null, and a null for a NOT NULL column fails the statement. */
  function UpdateStep(events: map<int, Event>, id: int, p: EventPatch, now: int): Update {
    if ProvidedColumns(p, Mapping) == [] then Update(Ok(GetEventById(events, id)), events)
    else if id !in events then Update(Ok(None), events)
    else if NullIntoNotNull(p) then Update(Err(NOT_NULL_VIOLATION), events)
    else
      var row := Patched(events[id], p).(updatedAt := now);
      Update(Ok(Some(row)), events[id := row])
  }

  lemma SetColumnAbsent(e: Event, p: EventPatch, c: Column)
    requires !Provided(p, c)
    ensures SetColumn(e, p, c) == e
  {
  }

  /** Leaving out the columns whose key is `undefined` changes nothing. */
  lemma {:induction false} SetProvidedColumns(e: Event, p: EventPatch, cols: seq<Column>)
    ensures SetColumns(e, p, ProvidedColumns(p, cols)) == SetColumns(e, p, cols)
    decreases |cols|
  {
    if cols != [] {
      var init := cols[..|cols| - 1];
      var last := cols[|cols| - 1];
      var chosen := ProvidedColumns(p, init);
      SetProvidedColumns(e, p, init);
      if Provided(p, last) {
        var both := chosen + [last];
        assert both[..|both| - 1] == chosen;
      } else {
        assert ProvidedColumns(p, cols) == chosen;
        SetColumnAbsent(SetColumns(e, p, init), p, last);
      }
    }
  }

  /** Setting every mapped column in order gives the field-by-field row. */
  lemma SetColumnsPrefix(e: Event, p: EventPatch, cols: seq<Column>, k: nat)
    requires k < |cols|
    ensures SetColumns(e, p, cols[..k + 1]) == SetColumn(SetColumns(e, p, cols[..k]), p, cols[k])
  {
    assert cols[..k + 1][..k] == cols[..k];
  }

  /** The first five columns of the mapping, set in order. */
  lemma SetFirstColumns(e: Event, p: EventPatch)
    ensures SetColumns(e, p, Mapping[..5]) ==
            SetColumn(SetColumn(SetColumn(SetColumn(SetColumn(e, p, Title), p, Description), p, Location), p, StartDate), p, EndDate)
  {
    var m := Mapping;
    assert SetColumns(e, p, m[..0]) == e;
    SetColumnsPrefix(e, p, m, 0);
    SetColumnsPrefix(e, p, m, 1);
    SetColumnsPrefix(e, p, m, 2);
    SetColumnsPrefix(e, p, m, 3);
    SetColumnsPrefix(e, p, m, 4);
  }

  /** The last five columns of the mapping, set in order after the first five. */
  lemma SetLastColumns(e: Event, p: EventPatch)
    ensures SetColumns(e, p, Mapping) ==
            SetColumn(SetColumn(SetColumn(SetColumn(SetColumn(SetColumns(e, p, Mapping[..5]), p, Capacity), p, Price), p, ImageUrl), p, IsPublished), p, CategoryId)
  {
    var m := Mapping;
    SetColumnsPrefix(e, p, m, 5);
    SetColumnsPrefix(e, p, m, 6);
    SetColumnsPrefix(e, p, m, 7);
    SetColumnsPrefix(e, p, m, 8);
    SetColumnsPrefix(e, p, m, 9);
    assert m[..10] == m;
  }

  /** Setting every mapped column in order gives the field-by-field row. */
  lemma SetAllColumns(e: Event, p: EventPatch)
    ensures SetColumns(e, p, Mapping) == Patched(e, p)
  {
    SetFirstColumns(e, p);
    SetLastColumns(e, p);
  }

  /** `updateEvent`: the loop over the mapping collects the `SET` list and
      numbers its placeholders; the id is the placeholder after the last
      value. */
  method UpdateEvent(db: Database, id: int, data: EventPatch, now: int) returns (r: Result<Option<Event>>)
    requires db.Valid()
    modifies db
    ensures db.Valid()
    ensures var u := UpdateStep(old(db.events), id, data, now);
            r == u.result && db.events == u.events
    ensures db.nextEventId == old(db.nextEventId)
    ensures db.tickets == old(db.tickets) && db.nextTicketId == old(db.nextTicketId)
    ensures db.categories == old(db.categories) && db.nextCategoryId == old(db.nextCategoryId)
    ensures db.users == old(db.users) && db.nextUserId == old(db.nextUserId)
  {
    var fields: seq<Column> := [];
    var idx := 1;
    for i := 0 to |Mapping|
      invariant fields == ProvidedColumns(data, Mapping[..i])
      invariant idx == |fields| + 1
    {
      assert Mapping[..i + 1][..i] == Mapping[..i];
      if Provided(data, Mapping[i]) {
        fields := fields + [Mapping[i]];
        idx := idx + 1;
      }
    }
    assert Mapping[..|Mapping|] == Mapping;
    if |fields| == 0 {
      return Ok(GetEventById(db.events, id));
    }
    assert idx == |fields| + 1;
    if id !in db.events {
      return Ok(None);
    }
    if NullIntoNotNull(data) {
      return Err(NOT_NULL_VIOLATION);
    }
    SetProvidedColumns(db.events[id], data, Mapping);
    SetAllColumns(db.events[id], data);
    var row := SetColumns(db.events[id], data, fields).(updatedAt := now);
    db.events := db.events[id := row];
    r := Ok(Some(row));
  }

  /** A body with none of the mapped keys (for instance one that only names
      another organizer) reads the row and writes nothing. */
  lemma NoMappedKeyIsRead(events: map<int, Event>, id: int, p: EventPatch, now: int)
    requires forall c :: c in Mapping ==> !Provided(p, c)
    ensures UpdateStep(events, id, p, now) == Update(Ok(GetEventById(events, id)), events)
  {
    assert ProvidedColumns(p, Mapping) == [] by {
      var none := forall i :: 0 <= i <= |Mapping| ==> ProvidedColumns(p, Mapping[..i]) == [];
      forall i | 0 <= i <= |Mapping| ensures ProvidedColumns(p, Mapping[..i]) == [] {
        ProvidedNone(p, Mapping, i);
      }
      assert Mapping[..|Mapping|] == Mapping;
    }
  }

  lemma {:induction false} ProvidedNone(p: EventPatch, cols: seq<Column>, i: int)
    requires 0 <= i <= |cols|
    requires forall c :: c in cols ==> !Provided(p, c)
    ensures ProvidedColumns(p, cols[..i]) == []
    decreases i
  {
    if i > 0 {
      ProvidedNone(p, cols, i - 1);
      assert cols[..i][..i - 1] == cols[..i - 1];
      assert cols[i - 1] in cols;
    }
  }

  /** A successful update changes one row only: its id, organizer and
      creation time stay, `updatedAt` becomes NOW(), each mapped key that was
      given replaces its column and every other column is unchanged. Every
      other row and the set of ids stay as they were. */
  lemma UpdateChangesOneRow(events: map<int, Event>, id: int, p: EventPatch, now: int)
    requires UpdateStep(events, id, p, now).events != events
    ensures var u := UpdateStep(events, id, p, now);
            && id in events && u.events.Keys == events.Keys
            && u.result == Ok(Some(u.events[id]))
            && u.events[id] == Patched(events[id], p).(updatedAt := now)
            && u.events[id].id == events[id].id
            && u.events[id].organizerId == events[id].organizerId
            && u.events[id].createdAt == events[id].createdAt
            && u.events[id].updatedAt == now
            && (p.capacity.Absent? ==> u.events[id].capacity == events[id].capacity)
            && (p.capacity.Value? ==> u.events[id].capacity == p.capacity.value)
            && (forall other :: other in events && other != id ==> u.events[other] == events[other])
  {
  }

  /** Sending the same body twice leaves what sending it once leaves: the
      second update finds every given column already set. */
  lemma PatchedIdempotent(e: Event, p: EventPatch)
    ensures Patched(Patched(e, p), p) == Patched(e, p)
  {
  }

  /** A failing or row-less update leaves the table as it was. */
  lemma UpdateFailureKeepsTable(events: map<int, Event>, id: int, p: EventPatch, now: int)
    ensures var u := UpdateStep(events, id, p, now);
            (u.result.Err? || u.result == Ok(None)) ==> u.events == events
    ensures var u := UpdateStep(events, id, p, now);
            u.result.Err? <==> ProvidedColumns(p, Mapping) != [] && id in events && NullIntoNotNull(p)
  {
  }

  // ---------------------------------------------------------------------
  // Delete

  const FOREIGN_KEY_VIOLATION :=
    Failure("23503", "update or delete on table \"events\" violates foreign key constraint on table \"tickets\"")

  /** `DELETE FROM events WHERE id = $1`: the tickets' foreign key to their
      event refuses the delete while a ticket for it exists. */
  function DeleteStep(events: map<int, Event>, tickets: seq<Ticket>, id: int): (r: (Option<Failure>, map<int, Event>))
  {
    if id in events && exists i :: 0 <= i < |tickets| && tickets[i].eventId == id
    then (Some(FOREIGN_KEY_VIOLATION), events)
    else (None, events - {id})
  }

  /** `deleteEvent`. */
  method DeleteEvent(db: Database, id: int) returns (failure: Option<Failure>)
    requires db.Valid()
    modifies db
    ensures db.Valid()
    ensures (failure, db.events) == DeleteStep(old(db.events), old(db.tickets), id)
    ensures db.nextEventId == old(db.nextEventId)
    ensures db.tickets == old(db.tickets) && db.nextTicketId == old(db.nextTicketId)
    ensures db.categories == old(db.categories) && db.nextCategoryId == old(db.nextCategoryId)
    ensures db.users == old(db.users) && db.nextUserId == old(db.nextUserId)
  {
    var sold := false;
    if id in db.events {
      sold := exists i :: 0 <= i < |db.tickets| && db.tickets[i].eventId == id;
    }
    if sold {
      return Some(FOREIGN_KEY_VIOLATION);
    }
    db.events := db.events - {id};
    failure := None;
  }

  /** A delete either removes exactly the row under `id` (and is then found
      no more) or, while tickets for it exist, fails and removes nothing.
      Deleting an id that is not there succeeds and changes nothing. */
  lemma DeleteOutcome(events: map<int, Event>, tickets: seq<Ticket>, id: int)
    ensures var (failure, after) := DeleteStep(events, tickets, id);
            && (failure.None? ==> GetEventById(after, id).None? && after.Keys == events.Keys - {id}
                                  && forall other :: other in after ==> after[other] == events[other])
            && (failure.Some? ==> after == events && id in events
                                  && exists i :: 0 <= i < |tickets| && tickets[i].eventId == id)
            && (id !in events ==> failure.None? && after == events)
  {
  }
}
