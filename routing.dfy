/**
 * What a route handler of src/routes/ ends with, and the foreign functions
 * the handlers call. Rendering, redirects and `next()` are recorded as
 * values; the Express router, the templates and their other data are not
 * modelled.
 */
module Routing {
  import opened Wrappers
  import opened Db
  import opened Validation

  /** The template a form is re-rendered in. */
  datatype FormView = AdminForm | AdminEventForm

  datatype Outcome =
    /** `next()`: the next handler in the chain, or the router's not-found fall-through. */
    | Next
    | Redirect(location: string)
    /** `res.render('error')`. */
    | ErrorPage
    /** A TypeError from reading `.id` of a null event, which `catchErrors` hands to Express. */
    | Crash
    /** An admin template with the form's data and the error list. */
    | Form(view: FormView, errors: seq<FieldError>, data: map<string, string>)
    /** The public `event` template. */
    | EventPage(event: EventView, registered: Option<seq<RegisteredRow>>,
                userRegistration: Option<bool>, errors: seq<FieldError>)
    /** The public `index` template. */
    | IndexPage(events: Option<seq<EventView>>, pageCount: int, currentPage: int)

  /** Code the routes call and that is not modelled: `slugify`, the `xss` library, validator's `escape`. */
  datatype Collaborators = Collaborators(
    slugify: string -> string, xss: string -> string, escape: string -> string)
}
