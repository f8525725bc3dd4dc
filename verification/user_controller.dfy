/** The admin-only user actions (`UserController::editRole` and `::delete`). */
module UserController {
  import opened Wrappers
  import opened PhpArrays
  import opened Roles
  import opened Entities
  import opened Framework

  const ROLE_EDITED := Flash("success", "message.user_role_edited_successfully")
  const USER_DELETED := Flash("success", "message.user_deleted_successfully")

  /** The title of the role page, chosen by the target's status before any change. */
  function RoleTitle(wasAdmin: bool): string {
    if wasAdmin then "label.remove_admin_privileges" else "label.add_admin_privileges"
  }

  /**
   * `editRole` as written: an admin toggles the target's admin role on a
   * valid submit, revoking with `divestAdmin()`. When ROLE_ADMIN is stored
   * only away from key 1, the page reports success and the target stays admin.
   */
  method EditRole(session: Session, target: User, request: Request, store: Store)
    returns (response: Response, flashes: seq<Flash>)
    requires target.Valid()
    modifies target`roles, store
    ensures target.Valid()
    ensures !session.Admin() ==>
      && response == Redirect("author_index") && flashes == []
      && target.roles == old(target.roles) && store.log == old(store.log)
    ensures session.Admin() && request.Accepted() ==>
      && target.roles == ToggledAsWritten(old(target.roles))
      && (!IsAdmin(old(target.roles)) ==> IsAdmin(target.roles))
      && store.log == old(store.log) + [Saved(target)]
      && flashes == [ROLE_EDITED]
      && response == Redirect("author_index")
    ensures session.Admin() && request.Accepted() && IsAdmin(old(target.roles))
            && Lookup(old(target.roles), 1) != Some(ROLE_ADMIN) ==>
      IsAdmin(target.roles) && flashes == [ROLE_EDITED]
    ensures session.Admin() && !request.Accepted() ==>
      && target.roles == old(target.roles) && store.log == old(store.log) && flashes == []
      && response == Render("users/edit.html.twig", Some(RoleTitle(IsAdmin(old(target.roles)))))
  {
    if !session.Admin() {
      return Redirect("author_index"), [];
    }
    ghost var before := target.roles;
    var isAdmin := target.CheckIfAdmin();
    if request.Accepted() {
      if isAdmin {
        target.DivestAdmin();
        assert Lookup(before, 1) != Some(ROLE_ADMIN) ==> target.roles == before;
      } else {
        target.MakeAdmin();
      }
      assert target.roles == ToggledAsWritten(before);
      store.Save(target);
      return Redirect("author_index"), [ROLE_EDITED];
    }
    return Render("users/edit.html.twig", Some(RoleTitle(isAdmin))), [];
  }

  /**
   * `editRole` with the intended revocation (every ROLE_ADMIN entry goes):
   * each accepted submit flips the target's admin status.
   */
  method EditRoleRevoking(session: Session, target: User, request: Request, store: Store)
    returns (response: Response, flashes: seq<Flash>)
    requires target.Valid()
    modifies target`roles, store
    ensures target.Valid()
    ensures !session.Admin() ==>
      && response == Redirect("author_index") && flashes == []
      && target.roles == old(target.roles) && store.log == old(store.log)
    ensures session.Admin() && request.Accepted() ==>
      && target.roles == Toggled(old(target.roles))
      && IsAdmin(target.roles) == !IsAdmin(old(target.roles))
      && store.log == old(store.log) + [Saved(target)]
      && flashes == [ROLE_EDITED]
      && response == Redirect("author_index")
    ensures session.Admin() && !request.Accepted() ==>
      && target.roles == old(target.roles) && store.log == old(store.log) && flashes == []
      && response == Render("users/edit.html.twig", Some(RoleTitle(IsAdmin(old(target.roles)))))
  {
    if !session.Admin() {
      return Redirect("author_index"), [];
    }
    ghost var before := target.roles;
    var isAdmin := target.CheckIfAdmin();
    if request.Accepted() {
      if isAdmin {
        target.RevokeAdmin();
      } else {
        target.MakeAdmin();
      }
      assert target.roles == Toggled(before);
      ToggledFlips(before);
      store.Save(target);
      return Redirect("author_index"), [ROLE_EDITED];
    }
    return Render("users/edit.html.twig", Some(RoleTitle(isAdmin))), [];
  }

  /** `delete`: an admin removes the target user on a valid delete form. */
  method Delete(session: Session, target: User, request: Request, store: Store)
    returns (response: Response, flashes: seq<Flash>)
    modifies store
    ensures !session.Admin() ==>
      response == Redirect("author_index") && flashes == [] && store.log == old(store.log)
    ensures session.Admin() && request.DeleteAccepted() ==>
      && store.log == old(store.log) + [Deleted(target)]
      && flashes == [USER_DELETED]
      && response == Redirect("author_index")
    ensures session.Admin() && !request.DeleteAccepted() ==>
      && store.log == old(store.log) && flashes == []
      && response == Render("users/delete.html.twig", None)
  {
    if !session.Admin() {
      return Redirect("author_index"), [];
    }
    if request.DeleteAccepted() {
      store.Delete(target);
      return Redirect("author_index"), [USER_DELETED];
    }
    return Render("users/delete.html.twig", None), [];
  }
}
