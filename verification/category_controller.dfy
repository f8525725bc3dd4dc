/** Category actions: `new`, `edit` and the guarded `delete`. */
module CategoryController {
  import opened Wrappers
  import opened Entities
  import opened Framework

  const CREATED := Flash("success", "message.created_successfully")
  const UPDATED := Flash("success", "message.updated_successfully")
  const DELETED := Flash("success", "message.deleted_successfully")
  const NOT_EMPTY := Flash("warning", "message.category_contains_tasks")

  /** `new`: a fresh category, saved only after a valid submit. */
  method New(request: Request, store: Store) returns (response: Response, flashes: seq<Flash>, category: Category)
    modifies store
    ensures fresh(category) && category.Valid() && category.articles == []
    ensures request.Accepted() ==>
      store.log == old(store.log) + [Saved(category)] && flashes == [CREATED] && response == Redirect("category_index")
    ensures !request.Accepted() ==>
      store.log == old(store.log) && flashes == [] && response == Render("category/new.html.twig", None)
  {
    category := new Category();
    if request.Accepted() {
      store.Save(category);
      return Redirect("category_index"), [CREATED], category;
    }
    return Render("category/new.html.twig", None), [], category;
  }

  /** `edit`: the category is saved only after a valid submit. */
  method Edit(category: Category, request: Request, store: Store) returns (response: Response, flashes: seq<Flash>)
    modifies store
    ensures request.Accepted() ==>
      store.log == old(store.log) + [Saved(category)] && flashes == [UPDATED] && response == Redirect("category_index")
    ensures !request.Accepted() ==>
      store.log == old(store.log) && flashes == [] && response == Render("category/edit.html.twig", None)
  {
    if request.Accepted() {
      store.Save(category);
      return Redirect("category_index"), [UPDATED];
    }
    return Render("category/edit.html.twig", None), [];
  }

  /**
   * `delete`: a category that still has articles is refused with a warning;
   * an empty one is deleted once the delete form is accepted.
   */
  method Delete(category: Category, request: Request, store: Store) returns (response: Response, flashes: seq<Flash>)
    modifies store
    ensures |category.articles| > 0 ==>
      store.log == old(store.log) && flashes == [NOT_EMPTY] && response == Redirect("category_index")
    ensures |category.articles| == 0 && request.DeleteAccepted() ==>
      store.log == old(store.log) + [Deleted(category)] && flashes == [DELETED] && response == Redirect("category_index")
    ensures |category.articles| == 0 && !request.DeleteAccepted() ==>
      store.log == old(store.log) && flashes == [] && response == Render("category/delete.html.twig", None)
    ensures store.log != old(store.log) ==> |category.articles| == 0 && request.DeleteAccepted()
  {
    if |category.articles| > 0 {
      return Redirect("category_index"), [NOT_EMPTY];
    }
    if request.DeleteAccepted() {
      store.Delete(category);
      return Redirect("category_index"), [DELETED];
    }
    return Render("category/delete.html.twig", None), [];
  }
}
