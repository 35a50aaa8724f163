# Event registration site: store, validation and route decisions

This Dafny project models the rules at the core of a small Express site. An
administrator creates, edits and deletes events. Users register for events
with a comment. The model covers:

- **the data-access layer** (`src/lib/db.js`). The `events` and
  `registrations` tables are sequences of records in the class `Db.Store`,
  with one serial counter per id column. The INSERT, UPDATE and DELETE
  functions are methods that change those fields. The SELECT functions are
  pure functions over the table values. Each is proved to return the same
  sentinel the JavaScript returns: the row, `null`, `true` or `false`.
  A failed `query` (it returns `null` on any connection or SQL error) is a
  `ran` flag on each call.
- **the structural rules and sanitizers** (`src/lib/validation.js`).
  - A rule list is a function from the request body to the error entries it
    adds.
  - A sanitizer list is a function from body to body.
  - `trim` is written out with JavaScript's white-space class. It matters
    because express-validator writes the trimmed value back, so the later
    max-length rule measures the trimmed text.
- **the admin route decisions** (`src/routes/admin-routes.js`). These are
  the name-uniqueness checks on create and update, the create, update and
  drop handlers, the edit page, and the two POST chains end to end.
- **the public route decisions** (`src/routes/index-routes.js`). These are
  the paged front page with its page count, the event page, and the
  registration chain.

A route handler's result is a value of `Routing.Outcome`:
- `next()`,
- a redirect,
- the error page,
- an admin form with its errors and data,
- the event page,
- the index page,
- `Crash`, which stands for the TypeError thrown when a handler reads `.id`
  of a `null` event.

The three foreign functions are parameters, bundled in
`Routing.Collaborators`: `slugify`, the `xss` library and validator's
`escape`.

The store invariant `Db.Store.Valid` says of both tables, `events` and
`registrations`:
- ids are at least 1,
- ids strictly increase along the table, so no id occurs twice,
- ids are below the table's serial counter.

Every mutator and every route preserves it. The counters only move up, by
one on each successful insert, so an id is never handed out twice, even
after a delete. Two consequences are proved:
- `ORDER BY id` is the table order.
- `max(id)` is at least the number of rows.

In four places the code does not do what its intended rule asks. The model
follows the code:
- **Duplicate registrations.** A user should be registered at most once
  for an event. The registration chain never calls `checkUserRegistration`,
  so nothing enforces this. `IndexRoutes.RegisterTwice` shows that the same
  user can register twice for one event.
- **Description on update.** The comment at `src/lib/db.js:101` says that
  `updateEvent` does not update the description. The UPDATE statement does
  set it, so `Db.Store.UpdateEvent` writes it.
- **Deleting without login.** Only an administrator should delete events.
  `POST /admin/dropEvent` is routed without `ensureLoggedIn`
  (`src/routes/admin-routes.js:200`), unlike every other admin route. The
  model does not cover the guards, and `AdminRoutes.DropEventRoute` has no
  precondition about the user.
- **Name uniqueness.** No two events should share a name. The check
  compares the name as `xss` left it, but the name is stored after `trim`
  and `escape`. `AdminRoutes.ResubmittedNameRejectedIffStable` shows that a
  stored name that trimming or escaping changes is accepted again.
  `AdminRoutes.SharedNameIsNotFlagged` shows that once two events share a
  name, the lookup never reports a clash for it again.

## Model

| member | source | states |
|---|---|---|
| `Tables.SingleRow` | src/lib/db.js:213-217 | the `rowCount === 1` test: a row index is returned iff exactly one row satisfies the condition, and it is that row |
| `Tables.FilterCounts` | src/lib/db.js:254-263 | a `WHERE` selection keeps each satisfying row as many times as the table holds it, and no other row |
| `Db.WithoutEvent` | src/lib/db.js:85-90 | `DELETE … WHERE id=$1` keeps exactly the rows whose id differs, each as often as the table holds it |
| `Db.WithoutUser` | src/lib/db.js:148-154 | `DELETE … WHERE userid=$1` keeps exactly the registrations whose user id does not SQL-equal the argument, in every event, each as often as before; a NULL argument removes nothing |
| `Db.RegistrationsOf` | src/lib/db.js:254-263 | the `WHERE R.event = $1` selection keeps exactly the registrations of that event, each as often as the table holds it |
| `Db.OrderById` | src/lib/db.js:185-189 | `ORDER BY id` is a permutation of the table, sorted by ascending id |
| `Db.OrderByIdOfKeyed` | src/lib/db.js:189 | on a well-formed table, ordering by id changes nothing |
| `Db.Page` | src/lib/db.js:189-192 | `LIMIT 10 OFFSET n` is the contiguous slice starting at n, of length min(10, rows left) |
| `Db.MaxId` | src/lib/db.js:220-225 | `max(id)` is null iff the table is empty, else an id of the table that bounds every id |
| `Db.FilterKeepsRegistrationKeys` | src/lib/db.js:148-154 | deleting registrations keeps their ids in range and strictly increasing |
| `Db.IdAtLeastPosition` | src/lib/db.js:68-73 | on a well-formed table the row at index i has id at least i+1 |
| `Db.KeyedIdIsUnique` | src/lib/db.js:115-116 | on a well-formed table `WHERE id = $4` selects exactly the one row carrying that id |
| `Db.CountOfKeyed` | src/lib/db.js:219-232 | on a non-empty well-formed table the count is the last row's id, which is at least the number of rows |
| `Db.DropKeepsCount` | src/lib/db.js:84-98 | deleting any id other than the maximum leaves `max(id)` unchanged, so the count is not a row count |
| `Db.ListEvents` | src/lib/db.js:164-179 | all rows, as id, name, slug, description and timestamps; null iff the query failed |
| `Db.GetEvents` | src/lib/db.js:181-199 | non-null iff the query ran and the page is at least 1 (a negative OFFSET is an SQL error); at most 10 rows, entry k being row (page-1)*10+k of the id order |
| `Db.ListEvent` | src/lib/db.js:202-217 | non-null iff the query ran and exactly one row has the slug; zero or several matches give null; the result is that row |
| `Db.AppendedFoundBySlugIff` | src/lib/db.js:202-217 | an appended event is found again by its slug iff no earlier event has that slug |
| `Db.GetEventCount` | src/lib/db.js:219-232 | null iff the query failed; the row's max is null iff the table is empty, else the largest id |
| `Db.ListEventByName` | src/lib/db.js:236-251 | non-null iff the query ran and exactly one row has the name; the result is that row |
| `Db.ListRegistered` | src/lib/db.js:254-272 | null iff the query failed; as many rows as the event has registrations; every row is the id, joined user name (null without a user) and comment of a registration of that event, and every registration of that event gives such a row |
| `Db.CheckUserRegistration` | src/lib/db.js:278-293 | true iff the query ran, the user id is not null and some registration has both that user and that event |
| `Db.Store.CreateEvent` | src/lib/db.js:60-83 | on success exactly one row is appended, with a fresh id larger than every existing one and the given name, URL, location, slug, description and creator, and that row is returned; on failure nothing changes and null is returned |
| `Db.Store.DropEvent` | src/lib/db.js:84-99 | true iff the statement ran, even when no row matched; then exactly the rows with that id are gone and every other row is kept |
| `Db.Store.UpdateEvent` | src/lib/db.js:101-127 | name, slug, description, location and URL (bound as $1, $2, $3, $5, $6) are written on the row whose id is bound as $4, with a new updated time; id, creator and created stay; other rows are untouched; the result is non-null iff the query ran and some row has that id |
| `Db.Store.Register` | src/lib/db.js:129-146 | on success one registration with a fresh id, the user (or null), the comment and the event is appended and returned; on failure nothing changes |
| `Db.Store.DropRegistration` | src/lib/db.js:148-163 | true iff the statement ran; then every registration of that user in every event is gone and all others are kept, each as often as before |
| `Validation.TrimBounds` | src/lib/validation.js:21 | trimming never lengthens, and gives the empty string iff the text is all white space |
| `Validation.TrimOfTrimmed` | src/lib/validation.js:21 | text without white space at either end is left unchanged by `trim` |
| `Validation.TextFieldRule` | src/lib/validation.js:6-16 | at most one error; none iff the field has at most 400 characters; the message starts with 'Athugasemd' for comment and 'Lýsing' otherwise |
| `Validation.LengthRules` | src/lib/validation.js:20-26 | one field's two chains: at most one entry, all for that field; none iff the trimmed length is within [min, max]; the short message iff it is below the minimum, the long message iff it is above the maximum |
| `Validation.LengthRulesEntries` | src/lib/validation.js:20-26 | the only entries a field's chains draw are its two messages |
| `Validation.RegistrationRules` | src/lib/validation.js:18-41 | name, username and password each draw at most one entry, so at most three errors |
| `Validation.RegistrationPassesIff` | src/lib/validation.js:18-41 | no error iff name and username have 1 to 64 and password 8 to 64 characters after trimming |
| `Validation.RegistrationOnlyMessages` | src/lib/validation.js:18-41 | every entry is one of the six messages, each under its own field |
| `Validation.NameMessages` | src/lib/validation.js:20-26 | 'Nafn má ekki vera tómt' is present iff the trimmed name is empty; the 64-character message iff the trimmed name is longer than 64 |
| `Validation.UsernameMessages` | src/lib/validation.js:27-33 | the username's empty message iff the trimmed username is empty; its 64-character message iff it is longer than 64 |
| `Validation.PasswordMessages` | src/lib/validation.js:34-40 | the password's 8-character message iff the trimmed password is shorter than 8; its 64-character message iff it is longer than 64 |
| `Validation.ShortNamePasses` | src/lib/validation.js:20-26 | a non-blank name of at most 64 characters draws no entry for 'name' at all |
| `Validation.LongNameFails` | src/lib/validation.js:24-26 | a 65-character name without white space at its ends draws the max-length message and not the empty one |
| `Validation.EmptyPasswordIsTooShort` | src/lib/validation.js:34-40 | an empty password draws the min-length message and not the max-length one |
| `Validation.SanitizeField` | src/lib/validation.js:47 | one sanitizer chain rewrites only its own field, and only when it was submitted |
| `Validation.XssSanitization` | src/lib/validation.js:45-50 | `xss` is applied to name and to the text field; all other fields are untouched |
| `Validation.Sanitization` | src/lib/validation.js:52-54 | name and the text field become `escape(trim(v))`; all other fields are untouched |
| `AdminRoutes.ValidationCheck` | src/routes/admin-routes.js:45-81 | proceeds iff there is no structural error and the name lookup found no row; otherwise the admin form with the structural errors followed by the name-clash entry (param 'name') |
| `AdminRoutes.ValidationCheckUpdate` | src/routes/admin-routes.js:83-122 | a name held by the edited event itself is no clash, one held by any other event is; throws when the name is held and the slug selects no event |
| `AdminRoutes.RegisterRoute` | src/routes/admin-routes.js:124-143 | creates the event with slug = slugify(name) and creator 1; redirects to /admin iff the insert returned a row, else the error page; the event counter advances by one iff the insert ran; the registrations and their counter are untouched |
| `AdminRoutes.UpdateRoute` | src/routes/admin-routes.js:145-165 | throws on an unknown slug; otherwise exactly the event the slug selects receives the form's fields and slugify(name); redirect iff the update returned a row; both counters and the registrations are untouched |
| `AdminRoutes.DropEventRoute` | src/routes/admin-routes.js:166-173 | redirects iff the delete ran, and then exactly the rows with the submitted id are gone; both counters and the registrations are untouched |
| `AdminRoutes.EventRoute` | src/routes/admin-routes.js:175-198 | falls through iff the slug lookup is null; otherwise the form holds the event's name, description, url and location |
| `AdminRoutes.CreateEventRequest` | src/routes/admin-routes.js:203-211 | the whole create chain: rejected iff the check on the `xss`-cleaned body rejects; otherwise the stored name and description are trimmed and escaped, URL and location stored as submitted; the event counter advances by one iff the row was stored |
| `AdminRoutes.UpdateEventRequest` | src/routes/admin-routes.js:215-223 | the whole update chain: rejected iff the update check rejects; otherwise the selected event receives the trimmed and escaped fields; both counters are untouched |
| `AdminRoutes.ResubmittedNameRejectedIffStable` | src/routes/admin-routes.js:60-67 | a stored name submitted again is rejected iff `xss` alone already yields the stored (trimmed, escaped) name |
| `AdminRoutes.SharedNameIsNotFlagged` | src/routes/admin-routes.js:60-62 | once two events share a name, that name passes the uniqueness check |
| `IndexRoutes.CeilTenth` | src/routes/index-routes.js:119 | `Math.ceil(m / 10)`: the least r with m <= 10r |
| `IndexRoutes.PageCount` | src/routes/index-routes.js:112-119 | ceil(max/10) for a count row, 0 when max is null (empty table), 1 when the count query failed |
| `IndexRoutes.PagingIndex` | src/routes/index-routes.js:110-125 | current page is the query's page or 1; the events are `getEvents` of it; the page count is 1 on failure and 0 on an empty table |
| `IndexRoutes.PageWithinCount` | src/routes/index-routes.js:112-119 | on a well-formed table the page holding any row is within the page count, since max(id) is at least the row count |
| `IndexRoutes.EveryEventOnSomePage` | src/routes/index-routes.js:119-120 | on a well-formed table row k is entry k mod 10 of page k/10+1, and that page is within the page count |
| `IndexRoutes.ValidationCheck` | src/routes/index-routes.js:63-90 | throws on an unknown slug; otherwise proceeds iff there is no structural error, never consulting existing registrations |
| `IndexRoutes.RegisterRoute` | src/routes/index-routes.js:92-109 | throws on an unknown slug; otherwise appends a registration for the user and event without any duplicate check, and redirects to "/" + slug iff it was stored; the registration counter advances by one iff the row was stored; the events and their counter are untouched |
| `IndexRoutes.EventRoute` | src/routes/index-routes.js:31-52 | falls through iff the slug lookup is null; otherwise the page shows the event, its registrations and `checkUserRegistration(user, event.id)` |
| `IndexRoutes.RegistrationRequest` | src/routes/index-routes.js:131-138 | the whole registration chain: rejected iff the comment rule fails (or the event is unknown); otherwise one registration with the trimmed, escaped comment is appended; the registration counter advances by one iff the row was stored; the event counter is untouched |
| `IndexRoutes.RegisterTwice` | src/routes/index-routes.js:98-102 | two requests by the same user for one event both succeed and add two rows, although the user already counted as registered after the first; the registration counter advances by two |

## Left out

- The pg pool, the connection string and SSL setup, `process.exit`, the pool's error handler and the logging in `query`: process lifecycle and I/O. A failed query is only the `ran` flag.
- `createSchema`, `dropSchema` (file I/O) and `end()` (shutdown).
- The schema file is not part of this model. Column types, defaults, foreign keys and any `ON DELETE` cascade from events to registrations are not modelled. `Db.Store.DropEvent` therefore leaves registrations alone.
- `created` and `updated` come from an abstract clock value `now` passed in; `CURRENT_TIMESTAMP` is not modelled further.
- The row order of the SELECTs without `ORDER BY` (`listEvents`, `listRegistered`, the lookups) is taken to be table order. PostgreSQL promises no order there.
- `slugify`, `xss` and `escape` are uninterpreted function parameters. Their own behaviour, such as what `escape` replaces, is not modelled.
- `isLength` counts code points. Newer validator.js versions also discount variation selectors; that is not modelled.
- A body field that was not submitted reads as the empty string. In the code it is `undefined`, which a sanitizer skips and SQL binds as NULL. In particular a missing name in `AdminRoutes.ValidationCheck` is looked up as "" rather than NULL.
- The template data that do not decide anything are not modelled: titles, `username`, the `admin` flag, the event list `validationCheck` fetches only for rendering, and the `data` object of the public event page.
- Starting the server, `express.Router` wiring, `catchErrors` (beyond `Crash`), `ensureLoggedIn` and `isAdmin` (not part of this model), and all of `src/routes/user-routes.js` (login, logout, sessions).
- `indexRoute` is not modelled because it is never reached. It is registered on `/` after `pagingIndex`, which always renders.
- `eventRegisteredRoute` (`/:slug/thanks`) only renders the event list.
- Concurrency: the race between the uniqueness lookup and the insert cannot be expressed in this sequential model.
- `IndexRoutes.PagingIndex`: the page is an optional integer. JavaScript's coercion of the query string (`"abc"` gives NaN and a failed query) is not modelled, nor is the empty string falling back to page 1. A page of 0 or below is modelled, and `getEvents` then fails.
- `Db.Store.CreateEvent` / `Db.Store.Register`: the serial counter advances only when an insert succeeds. PostgreSQL may also consume a sequence value on a failed insert. Only ids keep increasing, which is what the invariant needs.
