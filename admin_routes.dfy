/**
 * The decisions of the administrator routes (src/routes/admin-routes.js):
 * the name-uniqueness checks before creating and updating an event, the
 * create, update and drop handlers, and the edit page.
 *
 * The route chain for `POST /admin/` is: the description rule, `xss` on name
 * and description, `validationCheck`, trim-and-escape on name and
 * description, `registerRoute`. `POST /admin/:slug` is the same with
 * `validationCheckUpdate` and `updateRoute`. Both chains are modelled whole
 * by `CreateEventRequest` and `UpdateEventRequest`.
 */
module AdminRoutes {
  import opened Wrappers
  import opened Tables
  import opened Db
  import opened Validation
  import opened Routing

  const NameTaken := "Viðburður með þessu nafni er til"
  const AdminHome := "/admin"
  /** Every event is created with this creator id. */
  const CreatorId := 1

  /** The entry pushed onto `customValidations` when the name is taken. */
  const NameClash := FieldError("name", NameTaken)

  /** Exactly one event carries `name`: the case in which `listEventByName` returns a row. */
  ghost predicate NameHeld(t: seq<Event>, name: string)
  {
    exists i :: OnlyMatch(t, HasName(name), i)
  }

  function CreateFormData(b: Body): map<string, string>
  {
    map["name" := Field(b, "name"), "description" := Field(b, "description")]
  }

  function UpdateFormData(b: Body): map<string, string>
  {
    map["name" := Field(b, "name"), "description" := Field(b, "description"),
        "location" := Field(b, "location"), "URL" := Field(b, "URL")]
  }

  /**
   * `validationCheck`: `errors` is the structural result, `b` the body as it
   * stands after the `xss` sanitizer. Proceeds exactly when there is no
   * structural error and the name lookup found no row; otherwise re-renders
   * the admin page with the structural errors followed by the name clash.
   */
  function ValidationCheck(errors: seq<FieldError>, b: Body, events: seq<Event>, lookupRan: bool)
    : (o: Outcome)
    ensures o.Next? <==> errors == [] && !(lookupRan && NameHeld(events, Field(b, "name")))
    ensures !o.Next? ==> o == Form(AdminForm,
      errors + (if lookupRan && NameHeld(events, Field(b, "name")) then [NameClash] else []),
      CreateFormData(b))
  {
    var eventNameExists := ListEventByName(events, Field(b, "name"), lookupRan);
    var customValidations := if eventNameExists.Some? then [NameClash] else [];
    if errors != [] || |customValidations| > 0 then
      Form(AdminForm, errors + customValidations, CreateFormData(b))
    else Next
  }

  /**
   * `validationCheckUpdate`: as `validationCheck`, except that a name held
   * by the edited event itself (the one the path's slug selects) is no clash.
   * When the name is held but the slug selects no event, reading `event.id`
   * throws.
   */
  function ValidationCheckUpdate(
    errors: seq<FieldError>, b: Body, slug: string, events: seq<Event>, eventRan: bool, lookupRan: bool
  ): (o: Outcome)
    ensures o.Crash? <==>
      lookupRan && NameHeld(events, Field(b, "name")) && ListEvent(events, slug, eventRan).None?
    ensures !(lookupRan && NameHeld(events, Field(b, "name"))) ==>
      o == if errors == [] then Next else Form(AdminEventForm, errors, UpdateFormData(b))
    ensures forall i, j ::
      eventRan && lookupRan && OnlyMatch(events, HasSlug(slug), i) && OnlyMatch(events, HasName(Field(b, "name")), j)
      ==> o == if events[i].id == events[j].id then
                 (if errors == [] then Next else Form(AdminEventForm, errors, UpdateFormData(b)))
               else Form(AdminEventForm, errors + [NameClash], UpdateFormData(b))
  {
    var event := ListEvent(events, slug, eventRan);
    var eventNameExists := ListEventByName(events, Field(b, "name"), lookupRan);
    if eventNameExists.Some? && event.None? then Crash
    else
      var customValidations :=
        if eventNameExists.Some? && eventNameExists.value.id != event.value.id then [NameClash] else [];
      if errors != [] || |customValidations| > 0 then
        Form(AdminEventForm, errors + customValidations, UpdateFormData(b))
      else Next
  }

  /**
   * `registerRoute`: creates the event with the slug of its name and
   * creator 1; redirects to the admin page iff `createEvent` returned a row.
   */
  method RegisterRoute(store: Store, b: Body, env: Collaborators, now: int, ran: bool)
    returns (o: Outcome)
    requires store.Valid()
    modifies store
    ensures store.Valid()
    ensures o == if ran then Redirect(AdminHome) else ErrorPage
    ensures store.registrations == old(store.registrations)
    ensures store.nextRegistrationId == old(store.nextRegistrationId)
    ensures store.nextEventId == if ran then old(store.nextEventId) + 1 else old(store.nextEventId)
    ensures !ran ==> store.events == old(store.events)
    ensures ran ==> store.events == old(store.events) + [Event(old(store.nextEventId),
      Field(b, "name"), Field(b, "URL"), Field(b, "location"), env.slugify(Field(b, "name")),
      Field(b, "description"), CreatorId, now, now)]
  {
    var name := Field(b, "name");
    var created := store.CreateEvent(name, Field(b, "URL"), Field(b, "location"), env.slugify(name),
                                     Field(b, "description"), CreatorId, now, ran);
    if created.Some? {
      return Redirect(AdminHome);
    }
    return ErrorPage;
  }

  /** The event row after `updateRoute` wrote the form `b` into it. */
  function Edited(e: Event, b: Body, env: Collaborators, now: int): Event
  {
    e.(name := Field(b, "name"), slug := env.slugify(Field(b, "name")),
       description := Field(b, "description"), location := Field(b, "location"),
       url := Field(b, "URL"), updated := now)
  }

  /**
   * `updateRoute`: finds the event by the path's slug and writes the form
   * into it, with the new slug `slugify(name)`; redirects iff `updateEvent`
   * returned a row. A slug that selects no event throws on `event.id`.
   */
  method UpdateRoute(
    store: Store, b: Body, slug: string, env: Collaborators, now: int, lookupRan: bool, updateRan: bool
  ) returns (o: Outcome)
    requires store.Valid()
    modifies store
    ensures store.Valid()
    ensures store.registrations == old(store.registrations)
    ensures store.nextEventId == old(store.nextEventId) && store.nextRegistrationId == old(store.nextRegistrationId)
    ensures ListEvent(old(store.events), slug, lookupRan).None? ==>
      o == Crash && store.events == old(store.events)
    ensures forall i :: lookupRan && OnlyMatch(old(store.events), HasSlug(slug), i) ==>
      && o == (if updateRan then Redirect(AdminHome) else ErrorPage)
      && store.events == if updateRan then old(store.events)[i := Edited(old(store.events)[i], b, env, now)]
                         else old(store.events)
  {
    ghost var before := store.events;
    var event := ListEvent(store.events, slug, lookupRan);
    if event.None? {
      return Crash;
    }
    ghost var i :| OnlyMatch(before, HasSlug(slug), i) && event.value == ViewOf(before[i]);
    KeyedIdIsUnique(before, store.nextEventId, i);
    var name := Field(b, "name");
    var updated := store.UpdateEvent(event.value.id, name, env.slugify(name), Field(b, "description"),
                                     Field(b, "location"), Field(b, "URL"), now, updateRan);
    if updateRan {
      assert store.events == before[i := Edited(before[i], b, env, now)] by {
        forall k | 0 <= k < |before| ensures store.events[k] == before[i := Edited(before[i], b, env, now)][k] {
          if k != i {
            assert !HasId(before[i].id)(before[k]);
          }
        }
      }
    }
    o := if updated.Some? then Redirect(AdminHome) else ErrorPage;
  }

  /**
   * `dropEventRoute`: deletes by the submitted id and redirects iff
   * `dropEvent` returned true, which it does whenever the statement ran.
   */
  method DropEventRoute(store: Store, id: int, ran: bool) returns (o: Outcome)
    requires store.Valid()
    modifies store
    ensures store.Valid()
    ensures o == if ran then Redirect(AdminHome) else ErrorPage
    ensures store.events == if ran then WithoutEvent(old(store.events), id) else old(store.events)
    ensures store.registrations == old(store.registrations)
    ensures store.nextEventId == old(store.nextEventId) && store.nextRegistrationId == old(store.nextRegistrationId)
  {
    var dropped := store.DropEvent(id, ran);
    if dropped {
      return Redirect(AdminHome);
    }
    return ErrorPage;
  }

  /**
   * `eventRoute`: the edit page of the event the slug selects, its form
   * filled from the row; falls through when the lookup gives null.
   */
  function EventRoute(events: seq<Event>, slug: string, ran: bool): (o: Outcome)
    ensures o.Next? <==> !(ran && exists i :: OnlyMatch(events, HasSlug(slug), i))
    ensures forall i :: ran && OnlyMatch(events, HasSlug(slug), i) ==>
      o == Form(AdminEventForm, [], map["name" := events[i].name, "description" := events[i].description,
                                        "URL" := events[i].url, "location" := events[i].location])
  {
    var event := ListEvent(events, slug, ran);
    if event.None? then Next
    else
      Form(AdminEventForm, [], map["name" := event.value.name, "description" := event.value.description,
                                   "URL" := event.value.url, "location" := event.value.location])
  }

  // ---------------------------------------------------------------------
  // The two POST chains.
  // ---------------------------------------------------------------------

  /**
   * `POST /admin/`: the name is checked as `xss` left it, but stored as
   * trim-and-escape left it; URL and location are stored as submitted.
   */
  method CreateEventRequest(
    store: Store, body: Body, env: Collaborators, now: int, lookupRan: bool, insertRan: bool
  ) returns (o: Outcome)
    requires store.Valid()
    modifies store
    ensures store.Valid()
    ensures store.registrations == old(store.registrations)
    ensures
      var checked := XssSanitization("description", body, env.xss);
      var verdict := ValidationCheck(TextFieldRule("description", body), checked, old(store.events), lookupRan);
      var clean := Sanitization("description", checked, env.escape);
      && (!verdict.Next? ==> o == verdict && store.events == old(store.events))
      && (verdict.Next? ==> o == if insertRan then Redirect(AdminHome) else ErrorPage)
      && (verdict.Next? && insertRan ==> store.events == old(store.events) + [Event(old(store.nextEventId),
            Field(clean, "name"), Field(body, "URL"), Field(body, "location"),
            env.slugify(Field(clean, "name")), Field(clean, "description"), CreatorId, now, now)])
      && (!(verdict.Next? && insertRan) ==> store.events == old(store.events))
      && store.nextEventId == (if verdict.Next? && insertRan then old(store.nextEventId) + 1
                               else old(store.nextEventId))
    ensures store.nextRegistrationId == old(store.nextRegistrationId)
  {
    var errors := TextFieldRule("description", body);
    var checked := XssSanitization("description", body, env.xss);
    o := ValidationCheck(errors, checked, store.events, lookupRan);
    if o.Next? {
      var clean := Sanitization("description", checked, env.escape);
      o := RegisterRoute(store, clean, env, now, insertRan);
    }
  }

  /** `POST /admin/:slug`: the update chain, with its two lookups of the edited event. */
  method UpdateEventRequest(
    store: Store, body: Body, slug: string, env: Collaborators, now: int,
    checkEventRan: bool, checkNameRan: bool, lookupRan: bool, updateRan: bool
  ) returns (o: Outcome)
    requires store.Valid()
    modifies store
    ensures store.Valid()
    ensures store.nextEventId == old(store.nextEventId) && store.nextRegistrationId == old(store.nextRegistrationId)
    ensures store.registrations == old(store.registrations)
    ensures
      var checked := XssSanitization("description", body, env.xss);
      var verdict := ValidationCheckUpdate(TextFieldRule("description", body), checked, slug,
                                           old(store.events), checkEventRan, checkNameRan);
      var clean := Sanitization("description", checked, env.escape);
      && (!verdict.Next? ==> o == verdict && store.events == old(store.events))
      && (verdict.Next? && ListEvent(old(store.events), slug, lookupRan).None? ==>
            o == Crash && store.events == old(store.events))
      && (forall i :: verdict.Next? && lookupRan && OnlyMatch(old(store.events), HasSlug(slug), i) ==>
            && o == (if updateRan then Redirect(AdminHome) else ErrorPage)
            && store.events == if updateRan then old(store.events)[i := Edited(old(store.events)[i], clean, env, now)]
                               else old(store.events))
  {
    var errors := TextFieldRule("description", body);
    var checked := XssSanitization("description", body, env.xss);
    o := ValidationCheckUpdate(errors, checked, slug, store.events, checkEventRan, checkNameRan);
    if o.Next? {
      var clean := Sanitization("description", checked, env.escape);
      o := UpdateRoute(store, clean, slug, env, now, lookupRan, updateRan);
    }
  }

  // ---------------------------------------------------------------------
  // What the name check does and does not guarantee.
  // ---------------------------------------------------------------------

  /**
   * Resubmitting a name after it was stored: the check rejects it exactly
   * when `xss` alone already gives the stored (trimmed and escaped) name.
   * A name that trimming or escaping changes passes the check again and is
   * stored a second time.
   */
  lemma ResubmittedNameRejectedIffStable(t: seq<Event>, row: Event, body: Body, env: Collaborators)
    requires "name" in body
    requires row.name == env.escape(Trim(env.xss(body["name"])))
    requires forall e :: e in t ==> e.name != row.name && e.name != env.xss(body["name"])
    ensures
      var checked := XssSanitization("description", body, env.xss);
      ValidationCheck([], checked, t + [row], true).Next? <==> env.xss(body["name"]) != row.name
  {
    var checked := XssSanitization("description", body, env.xss);
    var name := Field(checked, "name");
    assert name == env.xss(body["name"]);
    var t' := t + [row];
    forall j | 0 <= j < |t| ensures t'[j].name != row.name && t'[j].name != name {
      assert t'[j] == t[j] && t[j] in t;
    }
    if name == row.name {
      assert OnlyMatch(t', HasName(name), |t|);
    } else {
      forall i ensures !OnlyMatch(t', HasName(name), i) {
      }
    }
  }

  /**
   * Once two events share a name, `listEventByName` finds no single row, so
   * the check lets that name through yet again.
   */
  lemma SharedNameIsNotFlagged(t: seq<Event>, i: nat, j: nat, b: Body)
    requires i < j < |t| && t[i].name == t[j].name == Field(b, "name")
    ensures ValidationCheck([], b, t, true).Next?
  {
    forall k | OnlyMatch(t, HasName(Field(b, "name")), k) ensures k == i && k == j {
    }
  }
}
