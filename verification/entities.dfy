/**
 * The Doctrine entities of the blog and the relationship bookkeeping of
 * their add/remove methods. Entities are objects compared by reference, as
 * PHP's `===` and `ArrayCollection::contains` compare them; collections are
 * sequences that the methods reassign. Every frame names the fields a method
 * may write, so each contract says exactly which collections change.
 */
module Entities {
  import opened Wrappers
  import opened PhpArrays
  import opened Roles
  import opened Collections

  class User {
    var id: Option<int>
    var email: Option<string>
    var firstName: Option<string>
    var roles: PhpArray
    var articles: seq<Article>
    var followedAuthors: seq<User>
    var followers: seq<User>
    var comments: seq<Comment>
    var avatar: Avatar?

    /** The collections never hold an element twice, and the role array is a PHP array. */
    ghost predicate Valid()
      reads this
    {
      && WellFormed(roles)
      && NoDup(articles)
      && NoDup(followedAuthors)
      && NoDup(followers)
      && NoDup(comments)
    }

    constructor ()
      ensures Valid()
      ensures id == None && email == None && firstName == None && roles == Empty
      ensures articles == [] && followedAuthors == [] && followers == [] && comments == []
      ensures avatar == null
    {
      id, email, firstName, roles := None, None, None, Empty;
      articles, followedAuthors, followers, comments := [], [], [], [];
      avatar := null;
    }

    /** `getUsername()`: the e-mail cast to string, so "" while it is null. */
    function GetUsername(): (name: string)
      reads this
      ensures email.Some? ==> name == email.value
      ensures email.None? ==> name == ""
    {
      if email.Some? then email.value else ""
    }

    /** `checkIfAdmin()`: a scan of `getRoles()` for ROLE_ADMIN. */
    method CheckIfAdmin() returns (isAdmin: bool)
      ensures isAdmin == IsAdmin(roles)
      ensures isAdmin <==> ROLE_ADMIN in Values(roles)
    {
      var effective := Effective(roles).entries;
      isAdmin := false;
      for i := 0 to |effective|
        invariant isAdmin <==> exists j :: 0 <= j < i && effective[j].value == ROLE_ADMIN
      {
        if effective[i].value == ROLE_ADMIN {
          isAdmin := true;
        }
      }
      assert isAdmin <==> ROLE_ADMIN in ValuesOf(effective) by {
        if ROLE_ADMIN in ValuesOf(effective) {
          var e :| e in effective && e.value == ROLE_ADMIN;
          var j :| 0 <= j < |effective| && effective[j] == e;
        }
      }
    }

    /** `makeAdmin()`: appends ROLE_ADMIN to the stored roles. */
    method MakeAdmin()
      requires Valid()
      modifies this`roles
      ensures Valid()
      ensures roles == Granted(old(roles))
      ensures IsAdmin(roles) && old(roles).entries <= roles.entries
    {
      roles := Append(roles, ROLE_ADMIN);
    }

    /** `divestAdmin()` as written: unsets key 1 when it holds ROLE_ADMIN. */
    method DivestAdmin()
      requires Valid()
      modifies this`roles
      ensures Valid()
      ensures roles == Divested(old(roles))
      ensures Lookup(old(roles), 1) != Some(ROLE_ADMIN) ==> roles == old(roles)
    {
      if Lookup(roles, 1) == Some(ROLE_ADMIN) {
        roles := Unset(roles, 1);
      }
    }

    /** The intended `divestAdmin()`: unsets every ROLE_ADMIN entry. */
    method RevokeAdmin()
      requires Valid()
      modifies this`roles
      ensures Valid()
      ensures roles == Revoked(old(roles))
      ensures !IsAdmin(roles)
    {
      roles := Revoked(roles);
    }

    /** `addArticle($a)`: the author reference is set only when the article is new to the collection. */
    method AddArticle(a: Article)
      requires Valid()
      modifies this`articles, a`author
      ensures Valid()
      ensures articles == Added(old(articles), a)
      ensures a.author == if a in old(articles) then old(a.author) else this
    {
      if a !in articles {
        articles := articles + [a];
        a.author := this;
      }
    }

    /** `removeArticle($a)`: the author reference is cleared only if it still points here. */
    method RemoveArticle(a: Article)
      requires Valid()
      modifies this`articles, a`author
      ensures Valid()
      ensures articles == Removed(old(articles), a) && a !in articles
      ensures a.author == if a in old(articles) && old(a.author) == this then null else old(a.author)
    {
      RemovedFromNoDup(articles, a);
      if a in articles {
        articles := Removed(articles, a);
        if a.author == this {
          a.author := null;
        }
      }
    }

    /** `addFollowedAuthor($u)`: only this side; `$u->followers` is not touched. */
    method AddFollowedAuthor(u: User)
      requires Valid()
      modifies this`followedAuthors
      ensures Valid()
      ensures followedAuthors == Added(old(followedAuthors), u)
      ensures u.followers == old(u.followers)
    {
      if u !in followedAuthors {
        followedAuthors := followedAuthors + [u];
      }
    }

    /** `removeFollowedAuthor($u)`: only this side. */
    method RemoveFollowedAuthor(u: User)
      requires Valid()
      modifies this`followedAuthors
      ensures Valid()
      ensures followedAuthors == Removed(old(followedAuthors), u) && u !in followedAuthors
      ensures u.followers == old(u.followers)
    {
      RemovedFromNoDup(followedAuthors, u);
      if u in followedAuthors {
        followedAuthors := Removed(followedAuthors, u);
      }
    }

    /** `addFollower($f)`: both sides, when f is new to the followers. */
    method AddFollower(f: User)
      requires Valid() && f.Valid()
      modifies this`followers, f`followedAuthors
      ensures Valid() && f.Valid()
      ensures followers == Added(old(followers), f)
      ensures f.followedAuthors ==
        if f in old(followers) then old(f.followedAuthors) else Added(old(f.followedAuthors), this)
      ensures f !in old(followers) ==> this in f.followedAuthors
    {
      if f !in followers {
        followers := followers + [f];
        f.AddFollowedAuthor(this);
      }
    }

    /** `removeFollower($f)`: both sides, when f was among the followers. */
    method RemoveFollower(f: User)
      requires Valid() && f.Valid()
      modifies this`followers, f`followedAuthors
      ensures Valid() && f.Valid()
      ensures followers == Removed(old(followers), f) && f !in followers
      ensures f.followedAuthors ==
        if f in old(followers) then Removed(old(f.followedAuthors), this) else old(f.followedAuthors)
      ensures f in old(followers) ==> this !in f.followedAuthors
    {
      RemovedFromNoDup(followers, f);
      if f in followers {
        followers := Removed(followers, f);
        f.RemoveFollowedAuthor(this);
      }
    }

    /** `addComment($c)`: the comment's author is set only when it is new to the collection. */
    method AddComment(c: Comment)
      requires Valid()
      modifies this`comments, c`author
      ensures Valid()
      ensures comments == Added(old(comments), c)
      ensures c.author == if c in old(comments) then old(c.author) else this
    {
      if c !in comments {
        comments := comments + [c];
        c.author := this;
      }
    }

    /** `removeComment($c)`: the comment's author is cleared only if it still points here. */
    method RemoveComment(c: Comment)
      requires Valid()
      modifies this`comments, c`author
      ensures Valid()
      ensures comments == Removed(old(comments), c) && c !in comments
      ensures c.author == if c in old(comments) && old(c.author) == this then null else old(c.author)
    {
      RemovedFromNoDup(comments, c);
      if c in comments {
        comments := Removed(comments, c);
        if c.author == this {
          c.author := null;
        }
      }
    }

    /** `setAvatar($a)` for a non-null avatar: both sides of the one-to-one point at each other. */
    method SetAvatar(a: Avatar)
      modifies this`avatar, a`user
      ensures avatar == a && a.user == this
    {
      avatar := a;
      if this != a.user {
        a.user := this;
      }
    }
  }

  /**
   * The uniqueness constraint on users' e-mails (the `email_idx` index and
   * `@UniqueEntity`): no two users in the list share a non-null e-mail.
   */
  ghost predicate EmailsUnique(users: seq<User>)
    reads set u | u in users
  {
    forall i, j :: 0 <= i < |users| && 0 <= j < |users| && users[i].email.Some? && users[i].email == users[j].email ==> i == j
  }

  /** Under that constraint, the user name of a user with an e-mail identifies the user. */
  lemma UsernameIdentifiesUser(users: seq<User>, i: int, j: int)
    requires EmailsUnique(users)
    requires 0 <= i < |users| && 0 <= j < |users|
    requires users[i].email.Some? && users[j].email.Some?
    ensures users[i].GetUsername() == users[j].GetUsername() <==> i == j
  {
  }

  class Article {
    var id: Option<int>
    var author: User?
    var category: Category?
    var tags: seq<Tag>
    var comments: seq<Comment>
    var coverPhoto: Photo?

    ghost predicate Valid()
      reads this
    {
      NoDup(tags) && NoDup(comments)
    }

    constructor ()
      ensures Valid()
      ensures id == None && author == null && category == null && coverPhoto == null
      ensures tags == [] && comments == []
    {
      id, author, category, coverPhoto := None, null, null, null;
      tags, comments := [], [];
    }

    /** `setAuthor($u)`. */
    method SetAuthor(u: User?)
      modifies this`author
      ensures author == u
    {
      author := u;
    }

    /** `setCategory($c)`: this side only; the category's collection is not touched. */
    method SetCategory(c: Category?)
      modifies this`category
      ensures category == c
      ensures c != null ==> c.articles == old(c.articles)
    {
      category := c;
    }

    /** `addTag($t)`: this side only; `$t->articles` is not touched. */
    method AddTag(t: Tag)
      requires Valid()
      modifies this`tags
      ensures Valid()
      ensures tags == Added(old(tags), t)
      ensures t.articles == old(t.articles)
    {
      if t !in tags {
        tags := tags + [t];
      }
    }

    /** `removeTag($t)`: this side only. */
    method RemoveTag(t: Tag)
      requires Valid()
      modifies this`tags
      ensures Valid()
      ensures tags == Removed(old(tags), t) && t !in tags
      ensures t.articles == old(t.articles)
    {
      RemovedFromNoDup(tags, t);
      if t in tags {
        tags := Removed(tags, t);
      }
    }

    /** `addComment($c)`: the comment's article is set only when it is new to the collection. */
    method AddComment(c: Comment)
      requires Valid()
      modifies this`comments, c`article
      ensures Valid()
      ensures comments == Added(old(comments), c)
      ensures c.article == if c in old(comments) then old(c.article) else this
    {
      if c !in comments {
        comments := comments + [c];
        c.article := this;
      }
    }

    /** `removeComment($c)`: the comment's article is cleared only if it still points here. */
    method RemoveComment(c: Comment)
      requires Valid()
      modifies this`comments, c`article
      ensures Valid()
      ensures comments == Removed(old(comments), c) && c !in comments
      ensures c.article == if c in old(comments) && old(c.article) == this then null else old(c.article)
    {
      RemovedFromNoDup(comments, c);
      if c in comments {
        comments := Removed(comments, c);
        if c.article == this {
          c.article := null;
        }
      }
    }

    /** `setCoverPhoto($p)`: both sides of the one-to-one point at each other. */
    method SetCoverPhoto(p: Photo)
      modifies this`coverPhoto, p`article
      ensures coverPhoto == p && p.article == this
    {
      coverPhoto := p;
      if this != p.article {
        p.article := this;
      }
    }
  }

  class Tag {
    var articles: seq<Article>

    ghost predicate Valid()
      reads this
    {
      NoDup(articles)
    }

    constructor ()
      ensures Valid() && articles == []
    {
      articles := [];
    }

    /** `addArticle($a)`: both sides of the many-to-many, when a is new to this tag. */
    method AddArticle(a: Article)
      requires Valid() && a.Valid()
      modifies this`articles, a`tags
      ensures Valid() && a.Valid()
      ensures articles == Added(old(articles), a)
      ensures a.tags == if a in old(articles) then old(a.tags) else Added(old(a.tags), this)
      ensures a !in old(articles) ==> this in a.tags
    {
      if a !in articles {
        articles := articles + [a];
        a.AddTag(this);
      }
    }

    /** `removeArticle($a)`: both sides, when a was linked to this tag. */
    method RemoveArticle(a: Article)
      requires Valid() && a.Valid()
      modifies this`articles, a`tags
      ensures Valid() && a.Valid()
      ensures articles == Removed(old(articles), a) && a !in articles
      ensures a.tags == if a in old(articles) then Removed(old(a.tags), this) else old(a.tags)
      ensures a in old(articles) ==> this !in a.tags
    {
      RemovedFromNoDup(articles, a);
      if a in articles {
        articles := Removed(articles, a);
        a.RemoveTag(this);
      }
    }
  }

  /** Linking an unlinked article to a tag and unlinking it again restores both collections. */
  method LinkThenUnlink(tag: Tag, a: Article)
    requires tag.Valid() && a.Valid()
    requires a !in tag.articles && tag !in a.tags
    modifies tag`articles, a`tags
    ensures tag.articles == old(tag.articles) && a.tags == old(a.tags)
  {
    tag.AddArticle(a);
    tag.RemoveArticle(a);
    AddedThenRemoved(old(tag.articles), a);
    AddedThenRemoved(old(a.tags), tag);
  }

  class Category {
    var articles: seq<Article>

    ghost predicate Valid()
      reads this
    {
      NoDup(articles)
    }

    constructor ()
      ensures Valid() && articles == []
    {
      articles := [];
    }

    /** `addArticle($a)`: the article's category is set only when it is new to the collection. */
    method AddArticle(a: Article)
      requires Valid()
      modifies this`articles, a`category
      ensures Valid()
      ensures articles == Added(old(articles), a)
      ensures a.category == if a in old(articles) then old(a.category) else this
    {
      if a !in articles {
        articles := articles + [a];
        a.category := this;
      }
    }

    /** `removeArticle($a)`: the article's category is cleared only if it still points here. */
    method RemoveArticle(a: Article)
      requires Valid()
      modifies this`articles, a`category
      ensures Valid()
      ensures articles == Removed(old(articles), a) && a !in articles
      ensures a.category == if a in old(articles) && old(a.category) == this then null else old(a.category)
    {
      RemovedFromNoDup(articles, a);
      if a in articles {
        articles := Removed(articles, a);
        if a.category == this {
          a.category := null;
        }
      }
    }
  }

  /** A comment: a plain record with its two owning references. */
  class Comment {
    var author: User?
    var article: Article?

    constructor ()
      ensures author == null && article == null
    {
      author, article := null, null;
    }
  }

  /** A cover photo: a plain record referencing its article. */
  class Photo {
    var article: Article?

    constructor ()
      ensures article == null
    {
      article := null;
    }
  }

  /** An avatar: a plain record referencing its user. */
  class Avatar {
    var user: User?

    constructor ()
      ensures user == null
    {
      user := null;
    }
  }
}
