# symfonyBlog: roles, relationship bookkeeping and controller rules, in Dafny

This project models the part of the symfonyBlog application (a Symfony/Doctrine
blog) that has rules of its own, apart from the framework glue:

- **Role handling on `User`.** The stored `roles` value is a PHP array, modelled as
  an ordered list of integer-keyed entries plus the "next free key" that
  `$roles[] = …` appends at (`PhpArrays`). The role functions are in `Roles`:
  `getRoles` (`Effective`), `checkIfAdmin` (`IsAdmin`, and the scanning method
  `User.CheckIfAdmin`), `makeAdmin` (`Granted`) and `divestAdmin` (`Divested`,
  exactly as written, which only unsets key 1).
- **Relationship collections on the entities.** `User`, `Article`, `Tag` and
  `Category` are classes compared by reference, as PHP's `===` and
  `ArrayCollection::contains` compare them. Their collections are duplicate-free
  `seq` fields, stated by each class's `Valid()`. The collection operations are
  "append unless present" (`Collections.Added`) and `removeElement`
  (`Collections.Removed`, which drops the first occurrence). Every method's
  `modifies` clause names single fields (`this`tags`, `a`author`), so the
  contract states exactly which collection or reference may change. Some
  methods update only their own side: `Article.AddTag`, `Article.RemoveTag`,
  `User.AddFollowedAuthor` and `User.RemoveFollowedAuthor`. Others also update
  the other side: `Tag.AddArticle` and `User.AddFollower`. Still others set or
  clear the owning reference: `User.AddArticle`, `Article.AddComment` and
  `Category.AddArticle`. The contracts state which kind each method is.
- **Decision rules of four controllers.** Follow/unfollow, the admin role
  toggle, the owner-or-admin test of article edit/delete, and the refusal to
  delete a non-empty category. Each action is a method. It takes a `Session`
  (nobody, or a user with an admin flag), a `Request` (the form was submitted,
  the form was valid, the HTTP verb), the entities involved, and a `Store`. It
  returns a `Response` and the flash messages it added. The `Store` records the
  repositories' `save` and `delete` calls as a log.

Modules: `Wrappers` (Option), `PhpArrays`, `Roles`, `Collections`, `Entities`
(all entity classes; they refer to each other), `Framework`, and one module per
controller: `SubscriptionController`, `UserController`, `ArticleController`
and `CategoryController`.

## Model

`Roles.IsAdmin` is the answer of `checkIfAdmin()` (User.php:334-344) and the specification function of `User.CheckIfAdmin`. `Roles.ToggledAsWritten` and `Roles.Toggled` are the toggle of UserController.php:48-52, with `divestAdmin()` as written and with the corrected revocation. They are the specification functions of `UserController.EditRole` and `UserController.EditRoleRevoking`, and the lemmas below are about them.

| member | source | states |
|---|---|---|
| `PhpArrays.Lookup` | app/src/Entity/User.php:359 | `isset($a[$k])` and the value it reads: some iff an entry has key k. In a well-formed array, that entry's value. |
| `PhpArrays.Append` | app/src/Entity/User.php:351 | `$a[] = $v`: the old entries are a prefix of the new array, with exactly one entry more. The values gain v. v sits at the old next key, and the next free key moves on by one. Every other key reads as before. Well-formedness is kept. |
| `PhpArrays.Unset` | app/src/Entity/User.php:360 | `unset($a[$k])`: key k no longer reads. Exactly the entries with other keys remain. The next free key is unchanged. Every other key reads as before. |
| `PhpArrays.Unique` | app/src/Entity/User.php:316 | `array_unique`: the result's entries come from the input, and its values are distinct and the same set as the input's. With distinct keys, an entry is kept iff it is the first entry holding its value. |
| `PhpArrays.UniqueFromKeepsFirst` | app/src/Entity/User.php:316 | The dedup pass keeps an entry iff its value is not yet seen and no earlier entry holds it. |
| `Roles.Effective` | app/src/Entity/User.php:311-317 | `getRoles()` always contains ROLE_USER. Its values are duplicate-free and equal the stored values plus ROLE_USER. Its entries are stored entries or the appended ROLE_USER entry. The stored array is a value, so it is not changed. |
| `Roles.Granted` | app/src/Entity/User.php:349-352 | After `makeAdmin()`, the roles are admin and every previously stored entry is still present at the same key. Exactly one entry is added: ROLE_ADMIN at the old next key. The next free key moves on by one. |
| `Roles.Divested` | app/src/Entity/User.php:357-362 | `divestAdmin()` as written: it removes only the entry `1 => ROLE_ADMIN`, and only when key 1 holds ROLE_ADMIN. Otherwise the array is unchanged. Every key other than 1 reads as before. |
| `Roles.AdminElsewhereSurvivesDivest` | app/src/Entity/User.php:357-362 | A ROLE_ADMIN stored at any key other than 1 leaves the user admin after `divestAdmin()`. |
| `Roles.GrantedEmptyToggleStaysAdmin` | app/src/Controller/UserController.php:46-52 | From the default roles, a grant followed by the as-written toggle of the role page leaves the roles unchanged, and the user is still admin. |
| `Roles.DivestAfterGrantOnEmptyStaysAdmin` | app/src/Entity/User.php:349-362 | From the default `roles = []`, `makeAdmin()` stores `[0 => ROLE_ADMIN]`. `divestAdmin()` then changes nothing, and the user stays admin. |
| `Roles.GrantPastKeyOneSticks` | app/src/Entity/User.php:349-362 | Take a non-admin array whose key 1 is free and whose next key is not 1. After the as-written toggle grants admin, the next toggle is a no-op. |
| `Roles.Revoked` | app/src/Entity/User.php:357-362 | Corrected `divestAdmin()`: never admin afterwards. Exactly the non-ROLE_ADMIN entries remain, with their keys. The next key and well-formedness are kept. |
| `Roles.ToggledFlips` | app/src/Controller/UserController.php:46-52 | The role toggle with the corrected revocation always flips the admin status and keeps the array well formed. |
| `Roles.ToggledTwiceFromNextKeyOne` | app/src/Controller/UserController.php:46-52 | Start from non-admin roles with next key 1. One as-written toggle grants admin at key 1. A second removes it, restores the original entries and leaves key 1 free with next key 2. |
| `Roles.RegisteredToggledTwice` | app/src/Controller/RegistrationController.php:39 | From the registration roles `['ROLE_USER']`: one as-written toggle makes `checkIfAdmin` true and a second makes it false. Key 1 is then free and the next key is 2. |
| `Collections.Added` | app/src/Entity/Article.php:256-258 | Append-unless-contained: x is present afterwards. Nothing else is added. The old sequence is a prefix. The result equals the input iff x was already there. Duplicate-freedom is kept. |
| `Collections.Removed` | app/src/Entity/Article.php:272-274 | `removeElement`: an absent x leaves the sequence unchanged. Otherwise exactly the first occurrence is cut out and the rest keep their order. |
| `Collections.RemovedFromNoDup` | app/src/Entity/Article.php:270-277 | In a duplicate-free collection, removal leaves x absent, keeps every other element, and keeps the collection duplicate-free. |
| `Collections.OnceIn` | app/src/Entity/Article.php:254-261 | A member of a duplicate-free collection occurs exactly once. |
| `Collections.AddedTwice` | app/src/Entity/Article.php:254-261 | Adding is idempotent. |
| `Collections.AddedThenRemoved` | app/src/Entity/Tag.php:212-237 | Adding an absent element and then removing it restores the collection exactly. |
| `Entities.User.constructor` | app/src/Entity/User.php:196-202 | A new user has empty collections and default `roles = []`, and is valid. |
| `Entities.User.GetUsername` | app/src/Entity/User.php:281-284 | The e-mail, or "" while the e-mail is null (the `(string)` cast). |
| `Entities.UsernameIdentifiesUser` | app/src/Entity/User.php:20-31 | Under the unique e-mail constraint, two users with e-mails have the same user name iff they are the same user. |
| `Entities.User.CheckIfAdmin` | app/src/Entity/User.php:334-344 | The `foreach` over `getRoles()` answers true iff ROLE_ADMIN is among the effective roles. That holds iff ROLE_ADMIN is stored. Nothing is modified. |
| `Entities.User.MakeAdmin` | app/src/Entity/User.php:349-352 | Only `roles` changes, to `Granted(old roles)`. The user is admin afterwards, and the old entries are a prefix. |
| `Entities.User.DivestAdmin` | app/src/Entity/User.php:357-362 | Only `roles` changes, to `Divested(old roles)`. It is unchanged unless key 1 held ROLE_ADMIN. |
| `Entities.User.RevokeAdmin` | app/src/Entity/User.php:357-362 | Corrected divest: only `roles` changes, to `Revoked(old roles)`. The user is not admin afterwards. |
| `Entities.User.AddArticle` | app/src/Entity/User.php:446-454 | Only `articles` and `a.author` may change. `articles` becomes `Added(old, a)`. `a.author` becomes this user only when a was new. |
| `Entities.User.RemoveArticle` | app/src/Entity/User.php:463-474 | `articles` becomes `Removed(old, a)`, so a is absent. `a.author` is nulled only if a was present and its author was this user. |
| `Entities.User.AddFollowedAuthor` | app/src/Entity/User.php:493-500 | Only `followedAuthors` changes, to `Added(old, u)`, and it stays duplicate-free. `u.followers` is untouched. |
| `Entities.User.RemoveFollowedAuthor` | app/src/Entity/User.php:509-516 | Only `followedAuthors` changes, to `Removed(old, u)`: u is absent and the others keep their order. It is a no-op if u was absent. `u.followers` is untouched. |
| `Entities.User.AddFollower` | app/src/Entity/User.php:535-543 | `followers` becomes `Added(old, f)`. If f was new, this user is added to `f.followedAuthors`; otherwise that is untouched. Both stay duplicate-free. |
| `Entities.User.RemoveFollower` | app/src/Entity/User.php:552-560 | `followers` becomes `Removed(old, f)`, so f is absent. If f was a follower, this user is removed from `f.followedAuthors`; otherwise that is untouched. |
| `Entities.User.AddComment` | app/src/Entity/User.php:579-587 | `comments` becomes `Added(old, c)`. `c.author` becomes this user only when c was new. |
| `Entities.User.RemoveComment` | app/src/Entity/User.php:596-607 | `comments` becomes `Removed(old, c)`. `c.author` is nulled only if it still pointed at this user. |
| `Entities.User.SetAvatar` | app/src/Entity/User.php:650-661 | For a non-null avatar: the user's avatar is a, and a's user is this user. |
| `Entities.Article.constructor` | app/src/Entity/Article.php:101-105 | A new article has no tags, no comments and null references, and is valid. |
| `Entities.Article.SetAuthor` | app/src/Entity/Article.php:230-235 | Only `author` changes, to the argument. |
| `Entities.Article.SetCategory` | app/src/Entity/Article.php:206-211 | Only `category` changes. The category's `articles` is not touched. |
| `Entities.Article.AddTag` | app/src/Entity/Article.php:254-261 | Only `tags` changes, to `Added(old, t)`, so t occurs once. `t.articles` is not modified. |
| `Entities.Article.RemoveTag` | app/src/Entity/Article.php:270-277 | Only `tags` changes, to `Removed(old, t)`: t is absent and the other tags are unchanged in order. It is a no-op if t was absent. `t.articles` is untouched. |
| `Entities.Article.AddComment` | app/src/Entity/Article.php:296-304 | `comments` becomes `Added(old, c)`. `c.article` becomes this article only when c was new. |
| `Entities.Article.RemoveComment` | app/src/Entity/Article.php:313-324 | `comments` becomes `Removed(old, c)`. `c.article` is nulled only if c was present and still pointed here. |
| `Entities.Article.SetCoverPhoto` | app/src/Entity/Article.php:343-353 | Afterwards `coverPhoto == p` and `p.article == this`. Only those two fields may change. |
| `Entities.Tag.constructor` | app/src/Entity/Tag.php:84-87 | A new tag has no articles. |
| `Entities.Tag.AddArticle` | app/src/Entity/Tag.php:212-220 | `articles` becomes `Added(old, a)`. If a was new, this tag is added to `a.tags`. For an already linked article nothing changes. |
| `Entities.Tag.RemoveArticle` | app/src/Entity/Tag.php:229-237 | `articles` becomes `Removed(old, a)`, so a is absent. If a was linked, this tag is removed from `a.tags`, so the tag is absent there too. |
| `Entities.LinkThenUnlink` | app/src/Entity/Tag.php:212-237 | For an article linked on neither side, `addArticle` then `removeArticle` restores both collections. |
| `Entities.Category.constructor` | app/src/Entity/Category.php:80-83 | A new category has no articles. |
| `Entities.Category.AddArticle` | app/src/Entity/Category.php:160-168 | `articles` becomes `Added(old, a)`. `a.category` becomes this category only when a was new, so re-adding changes nothing. |
| `Entities.Category.RemoveArticle` | app/src/Entity/Category.php:177-188 | `articles` becomes `Removed(old, a)`. `a.category` is nulled only if a was present and still pointed here. An absent article is a no-op. |
| `Entities.Comment.constructor` | app/src/Entity/Comment.php:54-64 | A new comment has null author and article. |
| `Entities.Photo.constructor` | app/src/Entity/Photo.php:93 | A new photo has a null article. |
| `Framework.Store.Save` | app/src/Repository/ArticleRepository.php:145-149 | `save` appends one `Saved(e)` to the store log. |
| `Framework.Store.Delete` | app/src/Repository/ArticleRepository.php:159-163 | `delete` appends one `Deleted(e)` to the store log. |
| `SubscriptionController.IsSubscribed` | app/src/Controller/SubscriptionController.php:141-147 | The scan with `break` answers true iff the author is among the followed authors. |
| `SubscriptionController.Follow` | app/src/Controller/SubscriptionController.php:134-163 | With nobody logged in, nothing changes and no flash is set. Otherwise `followedAuthors` becomes `Added(old, author)`, so no duplicate appears. Only an actual change brings a save and the success flash. The flash is set iff the collection changed. It always redirects to the author page. `author.followers` is untouched. |
| `SubscriptionController.Unfollow` | app/src/Controller/SubscriptionController.php:178-207 | With nobody logged in, nothing changes. Otherwise `followedAuthors` becomes `Removed(old, author)`. The save and the flash happen iff the author was followed, and the flash is set iff the collection changed. |
| `SubscriptionController.FollowThenUnfollow` | app/src/Controller/SubscriptionController.php:134-207 | For an author not yet followed, `follow` then `unfollow` restores the subscriber's followed authors. |
| `UserController.EditRole` | app/src/Controller/UserController.php:38-68 | As written. A non-admin is redirected and nothing changes. On a valid submit, a non-admin target gets `makeAdmin()` and an admin target gets `divestAdmin()`, so the roles become `ToggledAsWritten(old)`. The user is saved and the success flash set. A target whose ROLE_ADMIN sits away from key 1 is still admin after that success. Otherwise the page renders with a title chosen by the admin status before any change. |
| `UserController.EditRoleRevoking` | app/src/Controller/UserController.php:38-68 | The same action with the intended revocation: on a valid submit the roles become `Toggled(old)`, so admin status always flips. It is saved and flashed the same way. |
| `UserController.Delete` | app/src/Controller/UserController.php:89-114 | A non-admin is redirected and nothing is deleted. The target is deleted only on an accepted delete form. |
| `ArticleController.ModifyAccess` | app/src/Controller/ArticleController.php:173 | `edit`/`delete` proceed iff the caller is admin, or is logged in with an id equal to the author's id. A logged-in non-admin facing an article without author hits the null dereference. Anonymous callers are refused. |
| `ArticleController.View` | app/src/Controller/ArticleController.php:73-107 | A comment is created iff the caller is logged in. On a valid submit it gets the article and the caller as author. The flash and redirect happen even when the save fails (then nothing is logged). `article.comments` is not updated. |
| `ArticleController.New` | app/src/Controller/ArticleController.php:126-148 | Anonymous callers are redirected and nothing is saved. On a valid submit, the saved article has the caller as author. Before any submit, the new article has no tags and no category. The caller's `articles` is not updated. |
| `ArticleController.Edit` | app/src/Controller/ArticleController.php:169-195 | A save happens only when `ModifyAccess` allows and the form is accepted. A refusal redirects. A missing author is a server error. |
| `ArticleController.Delete` | app/src/Controller/ArticleController.php:216-241 | A deletion happens only when `ModifyAccess` allows and the delete form is accepted. |
| `CategoryController.New` | app/src/Controller/CategoryController.php:109-129 | The fresh category is saved only after a submitted, valid form. |
| `CategoryController.Edit` | app/src/Controller/CategoryController.php:151-173 | The category is saved only after a submitted, valid form. |
| `CategoryController.Delete` | app/src/Controller/CategoryController.php:195-226 | A category with at least one article gets a warning flash and a redirect, and stays in place. Otherwise it is deleted iff the delete form is accepted, and the confirmation page renders otherwise. The store changes only when the category is empty and the form accepted. |

## Left out

- Roles are PHP arrays with integer keys and string values only. String keys and non-string values of a `setRoles` argument are not modelled.
- Persisting and reloading `roles` is not modelled. Doctrine's `array` column type serializes and unserializes the array. After a reload, the next free key is the largest key plus one, not the in-memory value. The lemmas about sequences of toggles describe one object within one request.
- `Roles.Effective` states which entries `array_unique` keeps and that it drops no value. It does not state the order of the kept entries.
- `UserController.EditRole` is the action as written, with `divestAdmin()`. `UserController.EditRoleRevoking` is the same action with the corrected revocation (`User.RevokeAdmin`), as the findings below explain.
- `Session.isAdmin` stands for `isGranted('ROLE_ADMIN')`. The model leaves it unconstrained and does not tie it to the user's `roles`: the copy of the roles taken at login, and the role hierarchy, are not modelled.
- A `find($id)` that returns null is not modelled: controllers receive the found entity. Nothing in the PHP code checks for null. `editRole`, follow/unfollow, the category delete guard and the owner test for a logged-in non-admin dereference it. Other paths redirect, render, or fail on a typed repository parameter.
- `User.SetAvatar` is modelled for a non-null avatar only. With null, the PHP code dereferences null. Avatar.php is not part of this model; only its `user` reference is.
- Forms bind titles, bodies, names, tags and categories: that is framework configuration. A request is reduced to "submitted", "valid" and the HTTP verb.
- `ArticleController.New`: on a submitted form, `ArticleType` binds tags and a category to the new article. The model does not bind them, so its contract states the tags and the category only for a form that was not submitted.
- Flash messages and redirects are recorded outputs. Template rendering, pagination, route parameters and the index/view listing actions are not modelled.
- Repository queries (DQL, LIKE search), the entity manager, file upload listeners, migrations, fixtures, Twig/Markdown, the remaining controllers, `Photo::serialize`, timestamps and slugs are not modelled.
- Comment, Photo and Avatar are plain records with their owning references only.
- The exceptions that `CommentRepository::save` may throw are the `saveFails` parameter of `ArticleController.View`.
- No CategoryController action checks who the caller is. The application's access-control configuration is not part of this model.

## Findings

| source | as written | input that shows it | evidently intended | confidence | as-written member | corrected member |
|---|---|---|---|---|---|---|
| app/src/Entity/User.php:357-362 | `divestAdmin()` unsets only key 1, and only if it holds ROLE_ADMIN. `unset` does not renumber the array, and `makeAdmin()` appends at the next free key. | Stored roles `[]` (the entity default), then `makeAdmin()`, stores `[0 => 'ROLE_ADMIN']`, and `divestAdmin()` leaves it: the role page reports success and the user stays admin. Within one object, from `['ROLE_USER']` the toggle grants admin, revokes it, then grants at key 2, and the fourth toggle does nothing. | Revoking admin removes ROLE_ADMIN wherever it is stored, so every toggle flips the admin status. | medium, not executed | `Roles.AdminElsewhereSurvivesDivest`, `Roles.DivestAfterGrantOnEmptyStaysAdmin`, `Roles.GrantedEmptyToggleStaysAdmin`, `Roles.GrantPastKeyOneSticks`, `UserController.EditRole` | `Roles.Revoked`, `Roles.ToggledFlips`, `Entities.User.RevokeAdmin`, `UserController.EditRoleRevoking` |
