/** Following and unfollowing an author (`SubscriptionController::follow` and `::unfollow`). */
module SubscriptionController {
  import opened Collections
  import opened Entities
  import opened Framework

  const FOLLOWED := Flash("success", "message.followed_created_successfully")
  const UNFOLLOWED := Flash("success", "message.followed_deleted_successfully")

  /** The scan both actions run over the subscriber's followed authors, stopping at the first match. */
  method IsSubscribed(followed: seq<User>, author: User) returns (subscribed: bool)
    ensures subscribed <==> author in followed
  {
    subscribed := false;
    for i := 0 to |followed|
      invariant !subscribed
      invariant author !in followed[..i]
    {
      if followed[i] == author {
        subscribed := true;
        break;
      }
    }
  }

  /** `follow`: a logged-in user who does not yet follow the author starts to, and is saved. */
  method Follow(session: Session, author: User, store: Store) returns (response: Response, flashes: seq<Flash>)
    requires session.LoggedIn? ==> session.user.Valid()
    modifies session.Users()`followedAuthors, store
    ensures response == Redirect("author_view")
    ensures author.followers == old(author.followers)
    ensures session.Anonymous? ==> flashes == [] && store.log == old(store.log)
    ensures session.LoggedIn? ==>
      var s := session.user;
      var followed := author in old(s.followedAuthors);
      && s.Valid()
      && s.followedAuthors == Added(old(s.followedAuthors), author)
      && flashes == (if followed then [] else [FOLLOWED])
      && store.log == old(store.log) + (if followed then [] else [Saved(s)])
    ensures flashes != [] <==> session.LoggedIn? && session.user.followedAuthors != old(session.user.followedAuthors)
  {
    flashes := [];
    if session.LoggedIn? {
      var subscriber := session.user;
      var subscribed := IsSubscribed(subscriber.followedAuthors, author);
      if !subscribed {
        subscriber.AddFollowedAuthor(author);
        store.Save(subscriber);
        flashes := [FOLLOWED];
      }
    }
    response := Redirect("author_view");
  }

  /** `unfollow`: a logged-in user who follows the author stops, and is saved. */
  method Unfollow(session: Session, author: User, store: Store) returns (response: Response, flashes: seq<Flash>)
    requires session.LoggedIn? ==> session.user.Valid()
    modifies session.Users()`followedAuthors, store
    ensures response == Redirect("author_view")
    ensures author.followers == old(author.followers)
    ensures session.Anonymous? ==> flashes == [] && store.log == old(store.log)
    ensures session.LoggedIn? ==>
      var s := session.user;
      var followed := author in old(s.followedAuthors);
      && s.Valid()
      && s.followedAuthors == Removed(old(s.followedAuthors), author)
      && author !in s.followedAuthors
      && flashes == (if followed then [UNFOLLOWED] else [])
      && store.log == old(store.log) + (if followed then [Saved(s)] else [])
    ensures flashes != [] <==> session.LoggedIn? && session.user.followedAuthors != old(session.user.followedAuthors)
  {
    flashes := [];
    if session.LoggedIn? {
      var subscriber := session.user;
      var subscribed := IsSubscribed(subscriber.followedAuthors, author);
      if subscribed {
        subscriber.RemoveFollowedAuthor(author);
        store.Save(subscriber);
        flashes := [UNFOLLOWED];
      }
    }
    response := Redirect("author_view");
  }

  /** Following an author one did not follow and unfollowing again restores the followed authors. */
  method FollowThenUnfollow(session: Session, author: User, store: Store)
    requires session.LoggedIn? && session.user.Valid()
    requires author !in session.user.followedAuthors
    modifies session.Users()`followedAuthors, store
    ensures session.user.followedAuthors == old(session.user.followedAuthors)
    ensures store.log == old(store.log) + [Saved(session.user), Saved(session.user)]
  {
    var _, _ := Follow(session, author, store);
    var _, _ := Unfollow(session, author, store);
    AddedThenRemoved(old(session.user.followedAuthors), author);
  }
}
