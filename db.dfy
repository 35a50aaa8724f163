/**
 * The data-access layer of the event site (src/lib/db.js), modelled against
 * an abstract two-table store.
 *
 * Each exported operation of db.js runs one fixed SQL statement through
 * `query`, which yields either a result or `null` when the pool or the
 * statement failed. Here every operation takes `ran: bool`, the outcome of
 * that one `query` call: `true` when the statement executed, `false` when
 * `query` gave `null`. The statement's meaning is stated on the tables, and
 * the mapping of the result to the operation's sentinel (`null`, a row,
 * `true` or `false`) is modelled as written.
 */
module Db {
  import opened Wrappers
  import opened Tables

  /** One row of the `events` table. */
  datatype Event = Event(
    id: int, name: string, url: string, location: string, slug: string,
    description: string, creatorId: int, created: int, updated: int)

  /** One row of the `registrations` table; `userId` is SQL NULL when `None`. */
  datatype Registration = Registration(id: int, userId: Option<int>, comment: string, event: int)

  /** The columns `listEvents` selects. */
  datatype EventSummary = EventSummary(
    id: int, name: string, slug: string, description: string, created: int, updated: int)

  /** The columns `getEvents`, `listEvent` and `listEventByName` select. */
  datatype EventView = EventView(
    id: int, name: string, url: string, location: string, slug: string,
    description: string, created: int, updated: int)

  /** The columns `createEvent` returns (`RETURNING id, name, URL, location, slug, description`). */
  datatype CreatedRow = CreatedRow(
    id: int, name: string, url: string, location: string, slug: string, description: string)

  /** The columns `updateEvent` returns (`RETURNING id, name, slug, description`). */
  datatype UpdatedRow = UpdatedRow(id: int, name: string, slug: string, description: string)

  /** The single row of `SELECT max(id)`; `max` is SQL NULL on an empty table. */
  datatype CountRow = CountRow(max: Option<int>)

  /** A row of `listRegistered`: the registration id, the joined user name, the comment. */
  datatype RegisteredRow = RegisteredRow(id: int, name: Option<string>, comment: string)

  /** A bound statement parameter (`$1`, `$2`, …). */
  datatype Param = Text(text: string) | Number(n: int) | Null

  function ViewOf(e: Event): EventView
  {
    EventView(e.id, e.name, e.url, e.location, e.slug, e.description, e.created, e.updated)
  }

  function SummaryOf(e: Event): EventSummary
  {
    EventSummary(e.id, e.name, e.slug, e.description, e.created, e.updated)
  }

  /** A nullable integer as a statement parameter. */
  function NullableParam(v: Option<int>): Param
  {
    match v
    case Some(n) => Number(n)
    case None => Null
  }

  /** SQL `a = b` in a WHERE clause: NULL on either side matches nothing. */
  predicate SqlEquals(a: Option<int>, b: Option<int>)
  {
    a.Some? && b.Some? && a.value == b.value
  }

  // ---------------------------------------------------------------------
  // Key discipline of the store: the `serial` id column.
  // ---------------------------------------------------------------------

  /** Ids are positive, below the next value of the id sequence, and increase along the table. */
  ghost predicate KeyedEvents(t: seq<Event>, next: int)
  {
    && next >= 1
    && (forall i :: 0 <= i < |t| ==> 1 <= t[i].id < next)
    && (forall i, j :: 0 <= i < j < |t| ==> t[i].id < t[j].id)
  }

  /** The same discipline for the registrations' ids. */
  ghost predicate KeyedRegistrations(rs: seq<Registration>, next: int)
  {
    && next >= 1
    && (forall i :: 0 <= i < |rs| ==> 1 <= rs[i].id < next)
    && (forall i, j :: 0 <= i < j < |rs| ==> rs[i].id < rs[j].id)
  }

  /** Deleting rows keeps the id discipline. */
  lemma {:induction false} FilterKeepsKeys(t: seq<Event>, p: Event -> bool, next: int)
    requires KeyedEvents(t, next)
    ensures KeyedEvents(Filter(t, p), next)
  {
    if t != [] {
      var tail := t[1..];
      KeyedTail(t, next);
      FilterKeepsKeys(tail, p, next);
      var rest := Filter(tail, p);
      if p(t[0]) {
        var r := [t[0]] + rest;
        forall j | 0 < j < |r| ensures t[0].id < r[j].id {
          assert r[j] == rest[j - 1];
          HeadBelowTail(t, next, r[j]);
        }
        forall i, j | 0 < i < j < |r| ensures r[i].id < r[j].id {
          assert r[i] == rest[i - 1] && r[j] == rest[j - 1];
        }
        assert forall i :: 0 < i < |r| ==> r[i] == rest[i - 1];
      }
    }
  }

  /** Deleting registrations keeps their id discipline. */
  lemma {:induction false} FilterKeepsRegistrationKeys(rs: seq<Registration>, p: Registration -> bool, next: int)
    requires KeyedRegistrations(rs, next)
    ensures KeyedRegistrations(Filter(rs, p), next)
  {
    if rs != [] {
      var tail := rs[1..];
      RegistrationsTail(rs, next);
      FilterKeepsRegistrationKeys(tail, p, next);
      var rest := Filter(tail, p);
      if p(rs[0]) {
        forall y | y in rest ensures rs[0].id < y.id {
          RegistrationHeadFirst(rs, next, y);
        }
        PrependKeepsRegistrationKeys(rs[0], rest, next);
      }
    }
  }

  /** A registration whose id is in range and below every id of a keyed table may go in front of it. */
  lemma PrependKeepsRegistrationKeys(x: Registration, rs: seq<Registration>, next: int)
    requires KeyedRegistrations(rs, next) && 1 <= x.id < next
    requires forall y :: y in rs ==> x.id < y.id
    ensures KeyedRegistrations([x] + rs, next)
  {
    var r := [x] + rs;
    assert forall i :: 0 < i < |r| ==> r[i] == rs[i - 1];
    forall i, j | 0 <= i < j < |r| ensures r[i].id < r[j].id {
      assert r[j] in rs;
    }
  }

  /** Dropping the first registration keeps the id discipline. */
  lemma RegistrationsTail(rs: seq<Registration>, next: int)
    requires KeyedRegistrations(rs, next) && rs != []
    ensures KeyedRegistrations(rs[1..], next)
  {
    assert forall i :: 0 <= i < |rs[1..]| ==> rs[1..][i] == rs[i + 1];
  }

  /** The first registration's id is below that of every later one. */
  lemma RegistrationHeadFirst(rs: seq<Registration>, next: int, x: Registration)
    requires KeyedRegistrations(rs, next) && rs != [] && x in rs[1..]
    ensures rs[0].id < x.id
  {
    var q :| 0 <= q < |rs[1..]| && rs[1..][q] == x;
    assert rs[q + 1] == x;
  }

  /** In a keyed table the first row's id is below that of every later row. */
  lemma HeadBelowTail(t: seq<Event>, next: int, x: Event)
    requires KeyedEvents(t, next) && t != [] && x in t[1..]
    ensures t[0].id < x.id
  {
    var q :| 0 <= q < |t[1..]| && t[1..][q] == x;
    assert t[q + 1] == x;
  }

  /** In a keyed table the row at position `i` has id at least `i + 1`. */
  lemma {:induction false} IdAtLeastPosition(t: seq<Event>, next: int, i: nat)
    requires KeyedEvents(t, next) && i < |t|
    ensures t[i].id >= i + 1
  {
    if i > 0 {
      IdAtLeastPosition(t, next, i - 1);
    }
  }

  /** In a keyed table a row is selected by its id alone. */
  lemma KeyedIdIsUnique(t: seq<Event>, next: int, i: int)
    requires KeyedEvents(t, next) && 0 <= i < |t|
    ensures OnlyMatch(t, HasId(t[i].id), i)
  {
    forall j | 0 <= j < |t| && j != i ensures t[j].id != t[i].id {
      if j < i {
        assert t[j].id < t[i].id;
      } else {
        assert t[i].id < t[j].id;
      }
    }
  }

  // ---------------------------------------------------------------------
  // WHERE conditions.
  // ---------------------------------------------------------------------

  function HasId(id: int): Event -> bool
  {
    (e: Event) => e.id == id
  }

  function HasOtherId(id: int): Event -> bool
  {
    (e: Event) => e.id != id
  }

  function HasSlug(slug: string): Event -> bool
  {
    (e: Event) => e.slug == slug
  }

  function HasName(name: string): Event -> bool
  {
    (e: Event) => e.name == name
  }

  function ForUserAndEvent(userId: Option<int>, eventId: int): Registration -> bool
  {
    (r: Registration) => SqlEquals(r.userId, userId) && r.event == eventId
  }

  // ---------------------------------------------------------------------
  // The statements' meaning on the tables.
  // ---------------------------------------------------------------------

  /** The parameters `createEvent` binds, in the order of its `values` array. */
  function CreateEventParams(
    name: string, url: string, location: string, slug: string, description: string, creatorId: int
  ): seq<Param>
  {
    [Text(name), Text(url), Text(location), Text(slug), Text(description), Number(creatorId)]
  }

  /**
   * The row `INSERT INTO events (name, URL, location, slug, description,
   * creatorId) VALUES ($1, $2, $3, $4, $5, $6)` adds, given the next id and
   * the clock; `created` and `updated` take their column defaults.
   */
  function InsertedEvent(id: int, v: seq<Param>, now: int): Event
    requires |v| == 6 && v[0].Text? && v[1].Text? && v[2].Text? && v[3].Text? && v[4].Text?
    requires v[5].Number?
  {
    Event(id, v[0].text, v[1].text, v[2].text, v[3].text, v[4].text, v[5].n, now, now)
  }

  /** The parameters `updateEvent` binds: `[name, slug, description, id, location, URL]`. */
  function UpdateEventParams(
    id: int, name: string, slug: string, description: string, location: string, url: string
  ): seq<Param>
  {
    [Text(name), Text(slug), Text(description), Number(id), Text(location), Text(url)]
  }

  /**
   * The table after `UPDATE events SET name = $1, slug = $2, description = $3,
   * location = $5, URL = $6, updated = CURRENT_TIMESTAMP WHERE id = $4`.
   */
  function UpdatedEvents(t: seq<Event>, v: seq<Param>, now: int): seq<Event>
    requires |v| == 6 && v[0].Text? && v[1].Text? && v[2].Text? && v[3].Number?
    requires v[4].Text? && v[5].Text?
  {
    seq(|t|, i requires 0 <= i < |t| =>
      if t[i].id == v[3].n then
        t[i].(name := v[0].text, slug := v[1].text, description := v[2].text,
              location := v[4].text, url := v[5].text, updated := now)
      else t[i])
  }

  /** The table after `DELETE FROM events WHERE id = $1`. */
  function WithoutEvent(t: seq<Event>, id: int): (r: seq<Event>)
    ensures forall e :: e in r <==> e in t && e.id != id
    ensures forall e :: multiset(r)[e] == if e.id != id then multiset(t)[e] else 0
  {
    FilterCounts(t, HasOtherId(id));
    Filter(t, HasOtherId(id))
  }

  /** The table after `DELETE FROM registrations WHERE userid = $1`. */
  function WithoutUser(rs: seq<Registration>, userId: Option<int>): (r: seq<Registration>)
    ensures forall x :: x in r <==> x in rs && !SqlEquals(x.userId, userId)
    ensures forall x :: multiset(r)[x] == if !SqlEquals(x.userId, userId) then multiset(rs)[x] else 0
  {
    FilterCounts(rs, (x: Registration) => !SqlEquals(x.userId, userId));
    Filter(rs, (x: Registration) => !SqlEquals(x.userId, userId))
  }

  /** The registrations of one event (`WHERE R.event = $1`). */
  function RegistrationsOf(rs: seq<Registration>, eventId: int): (r: seq<Registration>)
    ensures forall x :: x in r <==> x in rs && x.event == eventId
    ensures forall x :: multiset(r)[x] == if x.event == eventId then multiset(rs)[x] else 0
  {
    FilterCounts(rs, (x: Registration) => x.event == eventId);
    Filter(rs, (x: Registration) => x.event == eventId)
  }

  // ---------------------------------------------------------------------
  // ORDER BY id, LIMIT and OFFSET, max(id).
  // ---------------------------------------------------------------------

  ghost predicate SortedById(s: seq<Event>)
  {
    forall i, j :: 0 <= i < j < |s| ==> s[i].id <= s[j].id
  }

  /** A row whose id bounds a sorted sequence from below may go in front of it. */
  lemma PrependSorted(x: Event, s: seq<Event>)
    requires SortedById(s)
    requires forall y :: y in s ==> x.id <= y.id
    ensures SortedById([x] + s)
  {
    var r := [x] + s;
    forall i, j | 0 <= i < j < |r| ensures r[i].id <= r[j].id {
      assert r[j] == s[j - 1];
      if i > 0 {
        assert r[i] == s[i - 1];
      }
    }
  }

  /** The rows after the first of a sorted sequence are sorted and bounded below by it. */
  lemma SortedTail(s: seq<Event>)
    requires SortedById(s) && s != []
    ensures SortedById(s[1..])
    ensures forall y :: y in s[1..] ==> s[0].id <= y.id
  {
    assert forall i :: 0 <= i < |s[1..]| ==> s[1..][i] == s[i + 1];
  }

  /** `e` inserted into the id-sorted `s` after every row with a smaller id. */
  function InsertById(e: Event, s: seq<Event>): (r: seq<Event>)
    requires SortedById(s)
    ensures |r| == |s| + 1
    ensures SortedById(r)
    ensures multiset(r) == multiset(s) + multiset{e}
  {
    if s == [] then [e]
    else if e.id <= s[0].id then
      PrependSorted(e, s);
      [e] + s
    else
      var tail := s[1..];
      assert s == [s[0]] + tail;
      SortedTail(s);
      var rest := InsertById(e, tail);
      InsertedRows(e, tail, rest);
      PrependSorted(s[0], rest);
      [s[0]] + rest
  }

  /** A sequence holding the rows of `s` and `e` holds exactly those rows. */
  lemma InsertedRows(e: Event, s: seq<Event>, r: seq<Event>)
    requires multiset(r) == multiset(s) + multiset{e}
    ensures forall y :: y in r <==> y == e || y in s
  {
    forall y ensures y in r <==> y == e || y in s {
      assert y in r <==> y in multiset(r);
      assert y in s <==> y in multiset(s);
    }
  }

  /** The rows of `t` in ascending id order (`ORDER BY id`). */
  function OrderById(t: seq<Event>): (r: seq<Event>)
    ensures |r| == |t|
    ensures SortedById(r)
    ensures multiset(r) == multiset(t)
  {
    if t == [] then []
    else
      assert t == [t[0]] + t[1..];
      InsertById(t[0], OrderById(t[1..]))
  }

  /** A table whose ids already increase is its own `ORDER BY id`. */
  lemma {:induction false} OrderByIdOfKeyed(t: seq<Event>, next: int)
    requires KeyedEvents(t, next)
    ensures OrderById(t) == t
  {
    if t != [] {
      var tail := t[1..];
      KeyedTail(t, next);
      OrderByIdOfKeyed(tail, next);
      InsertInFront(t[0], tail);
      assert t == [t[0]] + tail;
    }
  }

  /** Dropping the first row of a keyed table leaves a keyed table whose rows all follow it by id. */
  lemma KeyedTail(t: seq<Event>, next: int)
    requires KeyedEvents(t, next) && t != []
    ensures KeyedEvents(t[1..], next)
    ensures SortedById(t[1..])
    ensures t[1..] != [] ==> t[0].id <= t[1..][0].id
  {
    assert forall i :: 0 <= i < |t[1..]| ==> t[1..][i] == t[i + 1];
  }

  /** A row whose id is at most the first id of a sorted sequence is inserted in front of it. */
  lemma InsertInFront(e: Event, s: seq<Event>)
    requires SortedById(s)
    requires s != [] ==> e.id <= s[0].id
    ensures InsertById(e, s) == [e] + s
  {
  }

  /** `LIMIT limit OFFSET offset` on the ordered rows `s`. */
  function Page(s: seq<Event>, offset: nat, limit: nat): (r: seq<Event>)
    ensures |r| == if offset >= |s| then 0 else if |s| - offset < limit then |s| - offset else limit
    ensures forall k :: 0 <= k < |r| ==> r[k] == s[offset + k]
  {
    if offset >= |s| then []
    else if |s| - offset < limit then s[offset..]
    else s[offset..offset + limit]
  }

  /** `max(id)` over the table: NULL on an empty table. */
  function MaxId(t: seq<Event>): (m: Option<int>)
    ensures m.None? <==> t == []
    ensures m.Some? ==> exists i :: 0 <= i < |t| && t[i].id == m.value
    ensures m.Some? ==> forall i :: 0 <= i < |t| ==> t[i].id <= m.value
  {
    if t == [] then None
    else
      var rest := MaxId(t[1..]);
      if rest.Some? && rest.value > t[0].id then
        assert forall i :: 1 <= i < |t| ==> t[i] == t[1..][i - 1];
        Some(rest.value)
      else
        assert forall i :: 1 <= i < |t| ==> t[i] == t[1..][i - 1];
        Some(t[0].id)
  }

  /** In a keyed table the maximum id is the last row's and is at least the row count. */
  lemma CountOfKeyed(t: seq<Event>, next: int)
    requires KeyedEvents(t, next) && t != []
    ensures MaxId(t) == Some(t[|t| - 1].id)
    ensures MaxId(t).value >= |t|
  {
    IdAtLeastPosition(t, next, |t| - 1);
  }

  /** An id some row carries and no row exceeds is the table's `max(id)`. */
  lemma MaxIdIs(t: seq<Event>, i: int, m: int)
    requires 0 <= i < |t| && t[i].id == m
    requires forall j :: 0 <= j < |t| ==> t[j].id <= m
    ensures MaxId(t) == Some(m)
  {
    var v := MaxId(t);
    assert v.Some? && m <= v.value;
    var k :| 0 <= k < |t| && t[k].id == v.value;
    assert v.value <= m;
    assert v == Some(v.value);
  }

  /** Deleting a row other than the one holding the maximum leaves `max(id)` unchanged. */
  lemma DropKeepsCount(t: seq<Event>, id: int)
    requires MaxId(t).Some? && id != MaxId(t).value
    ensures MaxId(WithoutEvent(t, id)) == MaxId(t)
  {
    var m := MaxId(t).value;
    var i :| 0 <= i < |t| && t[i].id == m;
    var r := WithoutEvent(t, id);
    assert t[i] in r;
    forall j | 0 <= j < |r| ensures r[j].id <= m {
      assert r[j] in t;
      var q :| 0 <= q < |t| && t[q] == r[j];
    }
    var k :| 0 <= k < |r| && r[k] == t[i];
    MaxIdIs(r, k, m);
  }

  // ---------------------------------------------------------------------
  // The readers of db.js.
  // ---------------------------------------------------------------------

  /** `listEvents`: every row, or null when the query failed. */
  function ListEvents(t: seq<Event>, ran: bool): (r: Option<seq<EventSummary>>)
    ensures r.Some? <==> ran
    ensures r.Some? ==> |r.value| == |t| && forall i :: 0 <= i < |t| ==> r.value[i] == SummaryOf(t[i])
  {
    if ran then Some(seq(|t|, i requires 0 <= i < |t| => SummaryOf(t[i]))) else None
  }

  /**
   * `getEvents(page)`: ten rows per page, ordered by id, starting after the
   * `(page - 1) * 10` first. PostgreSQL refuses a negative OFFSET, so a page
   * below 1 makes the query fail like any other failure.
   */
  function GetEvents(t: seq<Event>, page: int, ran: bool): (r: Option<seq<EventView>>)
    ensures r.Some? <==> ran && page >= 1
    ensures r.Some? ==>
      var offset, n := (page - 1) * 10, |t|;
      && |r.value| <= 10
      && |r.value| == (if offset >= n then 0 else if n - offset < 10 then n - offset else 10)
      && forall k :: 0 <= k < |r.value| ==> r.value[k] == ViewOf(OrderById(t)[offset + k])
  {
    var offset := (page - 1) * 10;
    if !ran || offset < 0 then None
    else
      var ordered := OrderById(t);
      assert |ordered| == |t|;
      Some(Views(Page(ordered, offset, 10)))
  }

  /** The `EventView` columns of each row, in order. */
  function Views(rows: seq<Event>): (r: seq<EventView>)
    ensures |r| == |rows|
    ensures forall k :: 0 <= k < |r| ==> r[k] == ViewOf(rows[k])
  {
    seq(|rows|, k requires 0 <= k < |rows| => ViewOf(rows[k]))
  }

  /** `listEvent(slug)`: the row that is the only one with that slug, else null. */
  function ListEvent(t: seq<Event>, slug: string, ran: bool): (r: Option<EventView>)
    ensures r.Some? <==> ran && exists i :: OnlyMatch(t, HasSlug(slug), i)
    ensures r.Some? ==> exists i :: OnlyMatch(t, HasSlug(slug), i) && r.value == ViewOf(t[i])
  {
    var i := SingleRow(t, HasSlug(slug));
    if ran && i.Some? then Some(ViewOf(t[i.value])) else None
  }

  /** `listEventByName(name)`: the row that is the only one with that name, else null. */
  function ListEventByName(t: seq<Event>, name: string, ran: bool): (r: Option<EventView>)
    ensures r.Some? <==> ran && exists i :: OnlyMatch(t, HasName(name), i)
    ensures r.Some? ==> exists i :: OnlyMatch(t, HasName(name), i) && r.value == ViewOf(t[i])
  {
    var i := SingleRow(t, HasName(name));
    if ran && i.Some? then Some(ViewOf(t[i.value])) else None
  }

  /**
   * A freshly appended event is found again by its slug exactly when no
   * earlier event has that slug; otherwise the lookup sees two rows and
   * gives null.
   */
  lemma AppendedFoundBySlugIff(t: seq<Event>, e: Event)
    ensures ListEvent(t + [e], e.slug, true).Some? <==> forall x :: x in t ==> x.slug != e.slug
    ensures ListEvent(t + [e], e.slug, true).Some? ==> ListEvent(t + [e], e.slug, true).value == ViewOf(e)
  {
    var s := t + [e];
    if forall x :: x in t ==> x.slug != e.slug {
      forall j | 0 <= j < |t| ensures !HasSlug(e.slug)(s[j]) {
        assert s[j] == t[j] && t[j] in t;
      }
      assert OnlyMatch(s, HasSlug(e.slug), |t|);
    } else {
      var x :| x in t && x.slug == e.slug;
      var j :| 0 <= j < |t| && t[j] == x;
      assert s[j] == x;
      forall i ensures !OnlyMatch(s, HasSlug(e.slug), i) {
        assert HasSlug(e.slug)(s[j]) && HasSlug(e.slug)(s[|t|]);
      }
    }
  }

  /** `getEventCount`: the single row of `SELECT max(id)`, or null when the query failed. */
  function GetEventCount(t: seq<Event>, ran: bool): (r: Option<CountRow>)
    ensures r.Some? <==> ran
    ensures r.Some? ==> (r.value.max.None? <==> t == [])
    ensures r.Some? && r.value.max.Some? ==>
      (exists i :: 0 <= i < |t| && t[i].id == r.value.max.value) &&
      (forall i :: 0 <= i < |t| ==> t[i].id <= r.value.max.value)
  {
    if ran then Some(CountRow(MaxId(t))) else None
  }

  /** The user name the `left join users` attaches to a registration. */
  function JoinedName(users: map<int, string>, userId: Option<int>): Option<string>
  {
    if userId.Some? && userId.value in users then Some(users[userId.value]) else None
  }

  /**
   * `listRegistered(event)`: the event's registrations, each with the name of
   * its user when there is one; `users` stands for the `users` table.
   */
  function ListRegistered(rs: seq<Registration>, users: map<int, string>, eventId: int, ran: bool)
    : (r: Option<seq<RegisteredRow>>)
    ensures r.Some? <==> ran
    ensures r.Some? ==> |r.value| == |RegistrationsOf(rs, eventId)|
    ensures r.Some? ==> forall k :: 0 <= k < |r.value| ==>
      exists x :: x in rs && x.event == eventId && r.value[k] == RowOf(users, x)
    ensures r.Some? ==> forall x :: x in rs && x.event == eventId ==> RowOf(users, x) in r.value
  {
    if !ran then None
    else
      var mine := RegistrationsOf(rs, eventId);
      var rows := seq(|mine|, k requires 0 <= k < |mine| => RowOf(users, mine[k]));
      assert forall k :: 0 <= k < |rows| ==> mine[k] in mine && rows[k] == RowOf(users, mine[k]);
      assert forall x :: x in rs && x.event == eventId ==> RowOf(users, x) in rows by {
        forall x | x in rs && x.event == eventId ensures RowOf(users, x) in rows {
          assert x in mine;
          var k :| 0 <= k < |mine| && mine[k] == x;
          assert rows[k] == RowOf(users, x);
        }
      }
      Some(rows)
  }

  /** The row `listRegistered` gives for one registration. */
  function RowOf(users: map<int, string>, x: Registration): RegisteredRow
  {
    RegisteredRow(x.id, JoinedName(users, x.userId), x.comment)
  }

  /** `checkUserRegistration(userid, eventid)`: some registration has both; false on failure. */
  function CheckUserRegistration(rs: seq<Registration>, userId: Option<int>, eventId: int, ran: bool)
    : (b: bool)
    ensures b <==> (ran && userId.Some? &&
      exists i :: 0 <= i < |rs| && rs[i].userId == userId && rs[i].event == eventId)
  {
    ran && AnyRow(rs, ForUserAndEvent(userId, eventId))
  }

  // ---------------------------------------------------------------------
  // The store and the mutators of db.js.
  // ---------------------------------------------------------------------

  /** The two tables and the `serial` sequences behind their id columns. */
  class Store {
    var events: seq<Event>
    var registrations: seq<Registration>
    var nextEventId: int
    var nextRegistrationId: int

    ghost predicate Valid()
      reads this
    {
      KeyedEvents(events, nextEventId) && KeyedRegistrations(registrations, nextRegistrationId)
    }

    /** The freshly installed schema: both tables empty. */
    constructor ()
      ensures Valid()
      ensures events == [] && registrations == []
    {
      events := [];
      registrations := [];
      nextEventId := 1;
      nextRegistrationId := 1;
    }

    /**
     * `createEvent`: on success adds one row with a fresh id and the given
     * columns and returns it; on failure changes nothing and returns null.
     */
    method CreateEvent(
      name: string, url: string, location: string, slug: string, description: string,
      creatorId: int, now: int, ran: bool
    ) returns (r: Option<CreatedRow>)
      requires Valid()
      modifies this
      ensures Valid()
      ensures r.Some? <==> ran
      ensures registrations == old(registrations) && nextRegistrationId == old(nextRegistrationId)
      ensures !ran ==> events == old(events) && nextEventId == old(nextEventId)
      ensures ran ==>
        && events == old(events) + [Event(old(nextEventId), name, url, location, slug, description,
                                          creatorId, now, now)]
        && nextEventId == old(nextEventId) + 1
        && r.value == CreatedRow(old(nextEventId), name, url, location, slug, description)
        && forall e :: e in old(events) ==> e.id < r.value.id
    {
      if !ran {
        return None;
      }
      var row := InsertedEvent(nextEventId, CreateEventParams(name, url, location, slug, description, creatorId), now);
      events := events + [row];
      nextEventId := nextEventId + 1;
      r := Some(CreatedRow(row.id, row.name, row.url, row.location, row.slug, row.description));
    }

    /**
     * `dropEvent({ id })`: removes the rows with that id and keeps every other
     * row in order; true whenever the statement ran, even if nothing matched.
     */
    method DropEvent(id: int, ran: bool) returns (ok: bool)
      requires Valid()
      modifies this
      ensures Valid()
      ensures ok == ran
      ensures events == if ran then WithoutEvent(old(events), id) else old(events)
      ensures registrations == old(registrations)
      ensures nextEventId == old(nextEventId) && nextRegistrationId == old(nextRegistrationId)
    {
      if ran {
        FilterKeepsKeys(events, HasOtherId(id), nextEventId);
        events := WithoutEvent(events, id);
      }
      ok := ran;
    }

    /**
     * `updateEvent(id, { name, slug, description, location, URL })`: sets
     * those five columns and `updated` on the row with that id (description
     * included) and leaves id, creatorId, created and every other row alone;
     * returns the updated row, or null when no row has that id.
     */
    method UpdateEvent(
      id: int, name: string, slug: string, description: string, location: string, url: string,
      now: int, ran: bool
    ) returns (r: Option<UpdatedRow>)
      requires Valid()
      modifies this
      ensures Valid()
      ensures registrations == old(registrations)
      ensures nextEventId == old(nextEventId) && nextRegistrationId == old(nextRegistrationId)
      ensures |events| == |old(events)|
      ensures forall i :: 0 <= i < |events| ==>
        events[i] == if ran && old(events)[i].id == id then
          old(events)[i].(name := name, slug := slug, description := description,
                          location := location, url := url, updated := now)
        else old(events)[i]
      ensures r.Some? <==> ran && exists i :: 0 <= i < |old(events)| && old(events)[i].id == id
      ensures r.Some? ==> r.value == UpdatedRow(id, name, slug, description)
    {
      if !ran {
        return None;
      }
      var matched := SingleRow(events, HasId(id));
      forall i | 0 <= i < |events| && events[i].id == id ensures matched.Some? {
        KeyedIdIsUnique(events, nextEventId, i);
      }
      events := UpdatedEvents(events, UpdateEventParams(id, name, slug, description, location, url), now);
      if matched.Some? {
        var row := events[matched.value];
        r := Some(UpdatedRow(row.id, row.name, row.slug, row.description));
      } else {
        r := None;
      }
    }

    /** `register({ id, comment, event })`: on success appends the registration and returns it. */
    method Register(userId: Option<int>, comment: string, eventId: int, ran: bool)
      returns (r: Option<Registration>)
      requires Valid()
      modifies this
      ensures Valid()
      ensures r.Some? <==> ran
      ensures events == old(events) && nextEventId == old(nextEventId)
      ensures !ran ==> registrations == old(registrations) && nextRegistrationId == old(nextRegistrationId)
      ensures ran ==>
        && r.value == Registration(old(nextRegistrationId), userId, comment, eventId)
        && registrations == old(registrations) + [r.value]
        && nextRegistrationId == old(nextRegistrationId) + 1
    {
      if !ran {
        return None;
      }
      var v := [NullableParam(userId), Text(comment), Number(eventId)];
      var row := Registration(nextRegistrationId, if v[0].Number? then Some(v[0].n) else None, v[1].text, v[2].n);
      registrations := registrations + [row];
      nextRegistrationId := nextRegistrationId + 1;
      r := Some(row);
    }

    /**
     * `dropRegistration({ id })`: removes EVERY registration of that user, in
     * all events; true whenever the statement ran.
     */
    method DropRegistration(userId: Option<int>, ran: bool) returns (ok: bool)
      requires Valid()
      modifies this
      ensures Valid()
      ensures ok == ran
      ensures registrations == if ran then WithoutUser(old(registrations), userId) else old(registrations)
      ensures events == old(events)
      ensures nextEventId == old(nextEventId) && nextRegistrationId == old(nextRegistrationId)
    {
      if ran {
        FilterKeepsRegistrationKeys(registrations, (x: Registration) => !SqlEquals(x.userId, userId),
                                    nextRegistrationId);
        registrations := WithoutUser(registrations, userId);
      }
      ok := ran;
    }
  }
}
