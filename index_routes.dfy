/**
 * The decisions of the public routes (src/routes/index-routes.js): the
 * paged front page, the event page, and the registration chain for
 * `POST /:slug`, which is: the comment rule, `xss` on name and comment,
 * `validationCheck`, trim-and-escape on name and comment, `registerRoute`.
 */
module IndexRoutes {
  import opened Wrappers
  import opened Tables
  import opened Db
  import opened Validation
  import opened Routing

  const PerPage := 10

  /** `Math.ceil(m / 10)` for an integer `m`. */
  function CeilTenth(m: int): (r: int)
    ensures PerPage * (r - 1) < m <= PerPage * r
  {
    -((-m) / PerPage)
  }

  /**
   * The page count of the front page, from what `getEventCount` returned:
   * ceil(max / 10) for a count row; 0 when max is null (an empty table,
   * because `null / 10` is 0); 1 when the query failed and the handler
   * fell back to `maxEvents = 1`.
   */
  function PageCount(count: Option<CountRow>): (n: int)
    ensures count.None? ==> n == 1
    ensures count.Some? && count.value.max.None? ==> n == 0
    ensures count.Some? && count.value.max.Some? ==>
      PerPage * (n - 1) < count.value.max.value <= PerPage * n
  {
    match count
    case None => 1
    case Some(row) => if row.max.None? then 0 else CeilTenth(row.max.value)
  }

  /**
   * `pagingIndex`: the page is `req.query.page`, or 1 when none is given;
   * the events are `getEvents` of that page and the page count comes from
   * `getEventCount`.
   */
  method PagingIndex(t: seq<Event>, page: Option<int>, countRan: bool, listRan: bool) returns (o: Outcome)
    ensures o.IndexPage?
    ensures o.currentPage == page.GetOr(1)
    ensures o.events == GetEvents(t, page.GetOr(1), listRan)
    ensures o.pageCount == PageCount(GetEventCount(t, countRan))
    ensures !countRan ==> o.pageCount == 1
    ensures countRan && t == [] ==> o.pageCount == 0
  {
    var currentPage := if page.Some? then page.value else 1;
    var eventCount := GetEventCount(t, countRan);
    var maxEvents: Option<int>;
    if eventCount.Some? {
      maxEvents := eventCount.value.max;
    } else {
      maxEvents := Some(1);
    }
    // `Math.ceil(null / 10)` is 0.
    var pageCount := if maxEvents.Some? then CeilTenth(maxEvents.value) else 0;
    var events := GetEvents(t, currentPage, listRan);
    o := IndexPage(events, pageCount, currentPage);
  }

  /** On a well-formed table the page holding row `k` is within the page count. */
  lemma PageWithinCount(t: seq<Event>, next: int, k: nat)
    requires KeyedEvents(t, next) && k < |t|
    ensures k / PerPage + 1 <= PageCount(GetEventCount(t, true))
  {
    CountOfKeyed(t, next);
    var m := MaxId(t).value;
    var n := PageCount(GetEventCount(t, true));
    assert PerPage * (k / PerPage) <= k < m <= PerPage * n;
  }

  /**
   * On a well-formed table every event is listed: row `k` is entry `k % 10`
   * of page `k / 10 + 1`, and that page is within the page count.
   */
  lemma EveryEventOnSomePage(t: seq<Event>, next: int, k: nat)
    requires KeyedEvents(t, next) && k < |t|
    ensures var p := k / PerPage + 1;
      && 1 <= p <= PageCount(GetEventCount(t, true))
      && GetEvents(t, p, true).Some?
      && k % PerPage < |GetEvents(t, p, true).value|
      && GetEvents(t, p, true).value[k % PerPage] == ViewOf(t[k])
  {
    PageWithinCount(t, next, k);
    OrderByIdOfKeyed(t, next);
    var q, rem := k / PerPage, k % PerPage;
    var offset := (q + 1 - 1) * PerPage;
    assert offset + rem == k;
    var g := GetEvents(t, q + 1, true);
    assert g.value[rem] == ViewOf(OrderById(t)[offset + rem]);
  }

  /**
   * `validationCheck`: looks the event up first (a slug that selects no
   * event throws on `event.id`), then proceeds exactly when the structural
   * rules gave no error; it never asks whether the user is registered.
   */
  function ValidationCheck(
    errors: seq<FieldError>, slug: string, events: seq<Event>, regs: seq<Registration>,
    users: map<int, string>, eventRan: bool, listRan: bool
  ): (o: Outcome)
    ensures o.Crash? <==> !(eventRan && exists i :: OnlyMatch(events, HasSlug(slug), i))
    ensures forall i :: eventRan && OnlyMatch(events, HasSlug(slug), i) ==>
      o == if errors == [] then Next
           else EventPage(ViewOf(events[i]), ListRegistered(regs, users, events[i].id, listRan), None, errors)
  {
    var event := ListEvent(events, slug, eventRan);
    if event.None? then Crash
    else
      var registered := ListRegistered(regs, users, event.value.id, listRan);
      if errors != [] then EventPage(event.value, registered, None, errors) else Next
  }

  /**
   * `registerRoute`: registers the user for the event the slug selects and
   * redirects to the event's page iff `register` returned a row. There is
   * no duplicate check: the same user may be registered any number of times.
   */
  method RegisterRoute(
    store: Store, b: Body, slug: string, userId: Option<int>, eventRan: bool, registerRan: bool
  ) returns (o: Outcome)
    requires store.Valid()
    modifies store
    ensures store.Valid()
    ensures store.events == old(store.events)
    ensures store.nextEventId == old(store.nextEventId)
    ensures !(eventRan && exists i :: OnlyMatch(old(store.events), HasSlug(slug), i)) ==>
      && o == Crash
      && store.registrations == old(store.registrations)
      && store.nextRegistrationId == old(store.nextRegistrationId)
    ensures forall i :: eventRan && OnlyMatch(old(store.events), HasSlug(slug), i) ==>
      && o == (if registerRan then Redirect("/" + slug) else ErrorPage)
      && store.nextRegistrationId == (if registerRan then old(store.nextRegistrationId) + 1
                                      else old(store.nextRegistrationId))
      && store.registrations == if registerRan then
           old(store.registrations) + [Registration(old(store.nextRegistrationId), userId,
                                                    Field(b, "comment"), old(store.events)[i].id)]
         else old(store.registrations)
  {
    ghost var before := store.events;
    var event := ListEvent(store.events, slug, eventRan);
    if event.None? {
      return Crash;
    }
    ghost var i :| OnlyMatch(before, HasSlug(slug), i) && event.value == ViewOf(before[i]);
    forall j | OnlyMatch(before, HasSlug(slug), j) ensures j == i {
    }
    var registered := store.Register(userId, Field(b, "comment"), event.value.id, registerRan);
    if registered.Some? {
      return Redirect("/" + event.value.slug);
    }
    return ErrorPage;
  }

  /**
   * `eventRoute`: the event page of the event the slug selects, with its
   * registrations and whether the current user is among them; falls
   * through when the lookup gives null.
   */
  function EventRoute(
    events: seq<Event>, regs: seq<Registration>, users: map<int, string>, slug: string,
    userId: Option<int>, eventRan: bool, listRan: bool, checkRan: bool
  ): (o: Outcome)
    ensures o.Next? <==> !(eventRan && exists i :: OnlyMatch(events, HasSlug(slug), i))
    ensures forall i :: eventRan && OnlyMatch(events, HasSlug(slug), i) ==>
      o == EventPage(ViewOf(events[i]), ListRegistered(regs, users, events[i].id, listRan),
                     Some(CheckUserRegistration(regs, userId, events[i].id, checkRan)), [])
  {
    var event := ListEvent(events, slug, eventRan);
    if event.None? then Next
    else
      var registered := ListRegistered(regs, users, event.value.id, listRan);
      var userRegistration := CheckUserRegistration(regs, userId, event.value.id, checkRan);
      EventPage(event.value, registered, Some(userRegistration), [])
  }

  /**
   * `POST /:slug`: the registration chain. The stored comment is the
   * submitted one after `xss`, `trim` and `escape`.
   */
  method RegistrationRequest(
    store: Store, body: Body, slug: string, userId: Option<int>, users: map<int, string>,
    env: Collaborators, checkEventRan: bool, listRan: bool, eventRan: bool, registerRan: bool
  ) returns (o: Outcome)
    requires store.Valid()
    modifies store
    ensures store.Valid()
    ensures store.nextEventId == old(store.nextEventId)
    ensures store.events == old(store.events)
    ensures
      var verdict := ValidationCheck(TextFieldRule("comment", body), slug, old(store.events),
                                     old(store.registrations), users, checkEventRan, listRan);
      var clean := Sanitization("comment", XssSanitization("comment", body, env.xss), env.escape);
      && (!verdict.Next? ==>
            && o == verdict
            && store.registrations == old(store.registrations)
            && store.nextRegistrationId == old(store.nextRegistrationId))
      && (verdict.Next? && !(eventRan && exists i :: OnlyMatch(old(store.events), HasSlug(slug), i)) ==>
            && o == Crash
            && store.registrations == old(store.registrations)
            && store.nextRegistrationId == old(store.nextRegistrationId))
      && (forall i :: verdict.Next? && eventRan && OnlyMatch(old(store.events), HasSlug(slug), i) ==>
            && o == (if registerRan then Redirect("/" + slug) else ErrorPage)
            && store.nextRegistrationId == (if registerRan then old(store.nextRegistrationId) + 1
                                            else old(store.nextRegistrationId))
            && store.registrations == if registerRan then
                 old(store.registrations) + [Registration(old(store.nextRegistrationId), userId,
                                                          Field(clean, "comment"), old(store.events)[i].id)]
               else old(store.registrations))
  {
    var errors := TextFieldRule("comment", body);
    var checked := XssSanitization("comment", body, env.xss);
    o := ValidationCheck(errors, slug, store.events, store.registrations, users, checkEventRan, listRan);
    if o.Next? {
      var clean := Sanitization("comment", checked, env.escape);
      o := RegisterRoute(store, clean, slug, userId, eventRan, registerRan);
    }
  }

  /**
   * Registering twice for the same event: after the first request the user
   * already counts as registered, and the second request still succeeds
   * and adds a second row for the same user and event.
   */
  method RegisterTwice(store: Store, b: Body, slug: string, userId: int) returns (first: Outcome, second: Outcome)
    requires store.Valid()
    requires exists i :: OnlyMatch(store.events, HasSlug(slug), i)
    modifies store
    ensures store.Valid()
    ensures first == second == Redirect("/" + slug)
    ensures |store.registrations| == |old(store.registrations)| + 2
    ensures store.nextEventId == old(store.nextEventId)
    ensures store.nextRegistrationId == old(store.nextRegistrationId) + 2
    ensures var n := |old(store.registrations)|;
      && store.registrations[..n] == old(store.registrations)
      && store.registrations[n].userId == store.registrations[n + 1].userId == Some(userId)
      && store.registrations[n].event == store.registrations[n + 1].event
      && store.registrations[n].id != store.registrations[n + 1].id
      && CheckUserRegistration(store.registrations[..n + 1], Some(userId), store.registrations[n].event, true)
  {
    ghost var i :| OnlyMatch(store.events, HasSlug(slug), i);
    ghost var n := |store.registrations|;
    first := RegisterRoute(store, b, slug, Some(userId), true, true);
    ghost var afterFirst := store.registrations;
    assert afterFirst[n].userId == Some(userId);
    second := RegisterRoute(store, b, slug, Some(userId), true, true);
    assert store.registrations[..n + 1] == afterFirst;
  }
}
