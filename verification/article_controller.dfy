/** Article actions: comment on `view`, and the access rules of `new`, `edit` and `delete`. */
module ArticleController {
  import opened Wrappers
  import opened Entities
  import opened Framework

  const COMMENT_CREATED := Flash("success", "message.comment_created_successfully")
  const ARTICLE_CREATED := Flash("success", "message.article_created_successfully")
  const ARTICLE_UPDATED := Flash("success", "message.article_updated_successfully")
  const ARTICLE_DELETED := Flash("success", "message.article_deleted_successfully")

  /**
   * The outcome of the owner-or-admin test of `edit` and `delete`. Asking a
   * missing author for its id is a PHP error, which the test reaches only for
   * a logged-in non-admin.
   */
  datatype Access = Allowed | Refused | NoAuthor

  function ModifyAccess(session: Session, article: Article): (access: Access)
    reads article, article.author, session.Users()
    ensures access == Allowed <==>
      session.Admin() || (session.Authenticated() && article.author != null && session.user.id == article.author.id)
    ensures access == NoAuthor <==> !session.Admin() && session.Authenticated() && article.author == null
    ensures access == Refused ==> !session.Admin()
    ensures session.Anonymous? ==> access == Refused
  {
    if session.Admin() then Allowed
    else if !session.Authenticated() then Refused
    else if article.author == null then NoAuthor
    else if session.user.id != article.author.id then Refused
    else Allowed
  }

  /**
   * `view`: a logged-in reader gets a fresh comment; on a valid submit it
   * points at the article and the reader and is saved. A failing save is
   * swallowed: the flash and the redirect follow all the same.
   */
  method View(session: Session, article: Article, request: Request, saveFails: bool, store: Store)
    returns (response: Response, flashes: seq<Flash>, comment: Comment?)
    modifies store
    ensures comment != null <==> session.Authenticated()
    ensures comment != null ==> fresh(comment)
    ensures comment != null && request.Accepted() ==> comment.article == article && comment.author == session.user
    ensures comment != null && !request.Accepted() ==> comment.article == null && comment.author == null
    ensures article.comments == old(article.comments)
    ensures session.Authenticated() && request.Accepted() ==>
      && response == Redirect("article_view")
      && flashes == [COMMENT_CREATED]
      && store.log == old(store.log) + (if saveFails then [] else [Saved(comment)])
    ensures !(session.Authenticated() && request.Accepted()) ==>
      && response == Render("article/view.html.twig", None)
      && flashes == [] && store.log == old(store.log)
  {
    comment := null;
    if session.Authenticated() {
      comment := new Comment();
      if request.Accepted() {
        comment.article := article;
        comment.author := session.user;
        if !saveFails {
          store.Save(comment);
        }
        return Redirect("article_view"), [COMMENT_CREATED], comment;
      }
    }
    return Render("article/view.html.twig", None), [], comment;
  }

  /**
   * `new`: only a logged-in user may create an article; on a valid submit the
   * article gets that user as its author and is saved.
   */
  method New(session: Session, request: Request, store: Store)
    returns (response: Response, flashes: seq<Flash>, article: Article?)
    modifies store
    ensures article != null <==> session.Authenticated()
    ensures article != null ==> fresh(article) && article.comments == []
    ensures article != null && !request.submitted ==> article.tags == [] && article.category == null
    ensures session.Anonymous? ==>
      response == Redirect("article_index") && flashes == [] && store.log == old(store.log)
    ensures session.Authenticated() && request.Accepted() ==>
      && article.author == session.user
      && store.log == old(store.log) + [Saved(article)]
      && flashes == [ARTICLE_CREATED]
      && response == Redirect("photo_new")
    ensures session.Authenticated() && !request.Accepted() ==>
      && article.author == null
      && store.log == old(store.log) && flashes == []
      && response == Render("article/new.html.twig", None)
    ensures session.Authenticated() ==> session.user.articles == old(session.user.articles)
  {
    if !session.Authenticated() {
      return Redirect("article_index"), [], null;
    }
    article := new Article();
    if request.Accepted() {
      article.SetAuthor(session.user);
      store.Save(article);
      return Redirect("photo_new"), [ARTICLE_CREATED], article;
    }
    return Render("article/new.html.twig", None), [], article;
  }

  /** `edit`: the author or an admin saves the article on a valid submit. */
  method Edit(session: Session, article: Article, request: Request, store: Store)
    returns (response: Response, flashes: seq<Flash>)
    modifies store
    ensures ModifyAccess(session, article) == Refused ==>
      response == Redirect("article_index") && flashes == [] && store.log == old(store.log)
    ensures ModifyAccess(session, article) == NoAuthor ==>
      response == ServerError && flashes == [] && store.log == old(store.log)
    ensures ModifyAccess(session, article) == Allowed && request.Accepted() ==>
      && store.log == old(store.log) + [Saved(article)]
      && flashes == [ARTICLE_UPDATED]
      && response == Redirect("article_index")
    ensures ModifyAccess(session, article) == Allowed && !request.Accepted() ==>
      && store.log == old(store.log) && flashes == []
      && response == Render("article/edit.html.twig", None)
  {
    var access := ModifyAccess(session, article);
    if access == Refused {
      return Redirect("article_index"), [];
    } else if access == NoAuthor {
      return ServerError, [];
    }
    if request.Accepted() {
      store.Save(article);
      return Redirect("article_index"), [ARTICLE_UPDATED];
    }
    return Render("article/edit.html.twig", None), [];
  }

  /** `delete`: the author or an admin removes the article on a valid delete form. */
  method Delete(session: Session, article: Article, request: Request, store: Store)
    returns (response: Response, flashes: seq<Flash>)
    modifies store
    ensures ModifyAccess(session, article) == Refused ==>
      response == Redirect("article_index") && flashes == [] && store.log == old(store.log)
    ensures ModifyAccess(session, article) == NoAuthor ==>
      response == ServerError && flashes == [] && store.log == old(store.log)
    ensures ModifyAccess(session, article) == Allowed && request.DeleteAccepted() ==>
      && store.log == old(store.log) + [Deleted(article)]
      && flashes == [ARTICLE_DELETED]
      && response == Redirect("article_index")
    ensures ModifyAccess(session, article) == Allowed && !request.DeleteAccepted() ==>
      && store.log == old(store.log) && flashes == []
      && response == Render("article/delete.html.twig", None)
  {
    var access := ModifyAccess(session, article);
    if access == Refused {
      return Redirect("article_index"), [];
    } else if access == NoAuthor {
      return ServerError, [];
    }
    if request.DeleteAccepted() {
      store.Delete(article);
      return Redirect("article_index"), [ARTICLE_DELETED];
    }
    return Render("article/delete.html.twig", None), [];
  }
}
