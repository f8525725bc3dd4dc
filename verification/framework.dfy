/**
 * What the controllers see of the web framework: the logged-in session,
 * the submitted form, the response, flash messages and the repositories'
 * save/delete, recorded as a log of store operations.
 */
module Framework {
  import opened Wrappers
  import opened Entities

  /**
   * The security token of a request: nobody, or a user together with
   * whether the token grants ROLE_ADMIN (`isGranted('ROLE_ADMIN')`).
   */
  datatype Session = Anonymous | LoggedIn(user: User, isAdmin: bool) {
    /** `isGranted('IS_AUTHENTICATED_REMEMBERED')` */
    predicate Authenticated() {
      LoggedIn?
    }

    /** `isGranted('ROLE_ADMIN')` */
    predicate Admin() {
      LoggedIn? && isAdmin
    }

    /** The current user, as a frame. */
    function Users(): set<User> {
      if LoggedIn? then {user} else {}
    }
  }

  datatype HttpMethod = GET | POST | PUT | DELETE

  /** A request as the form component sees it after `handleRequest`. */
  datatype Request = Request(verb: HttpMethod, submitted: bool, valid: bool) {
    /** `$form->isSubmitted() && $form->isValid()` */
    predicate Accepted() {
      submitted && valid
    }

    /**
     * The same test on a delete form, which a DELETE request that the form
     * did not pick up submits explicitly first.
     */
    predicate DeleteAccepted() {
      (submitted || verb == DELETE) && valid
    }
  }

  datatype Response =
    | Redirect(route: string)
    | Render(template: string, title: Option<string>)
    | ServerError

  datatype Flash = Flash(kind: string, message: string)

  datatype StoreOp = Saved(entity: object) | Deleted(entity: object)

  /** The repositories' `save` (persist and flush) and `delete` (remove and flush). */
  class Store {
    var log: seq<StoreOp>

    constructor ()
      ensures log == []
    {
      log := [];
    }

    method Save(e: object)
      modifies this
      ensures log == old(log) + [Saved(e)]
    {
      log := log + [Saved(e)];
    }

    method Delete(e: object)
      modifies this
      ensures log == old(log) + [Deleted(e)]
    {
      log := log + [Deleted(e)];
    }
  }
}
