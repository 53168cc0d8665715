# Blog core: posts, likes, users and the dark-mode controller

A Dafny model of the core of a personal blog built on Rails. Posts carry a
slug generated from the title and an excerpt cut from the content. Visitors
like a post either as a logged-in GitHub user or anonymously by IP address,
and each post keeps a `likes_count` counter cache. Users are created from a
GitHub login. The page's theme switcher resolves a light or dark theme.

The model is split by the program's own structure:

- `common.dfy` (`Common`): nil as `Option`, Ruby's `blank?`/`present?`, and a `where`-style `Filter`.
- `schema.dfy` (`Schema`): the rows of `posts`, `likes`, `users` and `comments`, and the constraints `db/schema.rb` declares.
  - The constraints are not-null columns, defaults, the unique and partial-unique indexes, and the foreign keys.
- `post.dfy` (`PostModel`): the post model's work.
  - `parameterize`.
  - The slug probe loop of `generate_slug`, as a `while` loop with its invariants.
  - `truncate(200, separator: ' ')` for the excerpt.
  - The two `before_validation` callbacks, the validations and the scopes.
- `like.dfy` (`LikeModel`): the like validations, in two versions.
  - The validations as written.
  - The validations as the indexes intend them.
  - The `by_ip` scope, the counting that the counter cache mirrors, and how deletion and nullification keep the indexes.
- `user.dfy` (`UserModel`): `admin?`, `display_name`, the user validations, and the attributes `find_or_create_from_github` writes.
- `post_likeable.dfy` (`PostLikeable`): `find_user_like` and `user_liked?`, the identity-matching rule they share, and how that rule relates to the partial unique indexes.
- `store.dfy` (`Store`): class `Db` holds the four tables and the id sequences.
  - Its methods create, update and destroy posts, save and destroy likes, destroy users, and find or create users from GitHub.
  - `SaveLike` runs the like validations with the corrected address rule (see "## Findings").
  - Each method keeps the invariant `Valid()`: schema constraints, model validations, `likes_count` equal to the number of likes, and fresh ids.
- `likes_controller.dfy` (`LikesController`): the `create` and `destroy` actions as methods over a `Db`, with their responses.
  - Saving a like runs the validations with the corrected address rule (see "## Findings"). As written, an anonymous visitor behind the address of a logged-in user's like is refused; `PostLikeable.AnonymousVisitorLockedOutAsWritten` states that outcome.
- `application_helper.dfy` (`ApplicationHelper`): `language_color`.
- `dark_mode.dfy` (`DarkMode`): the Stimulus dark-mode controller as a class.
  - Local storage and the colour-scheme media query are fields.
  - The html element, the two icons and the theme-color meta tag are objects that its methods modify.

Inputs from outside the program are parameters:

- the remote IP address;
- the current user;
- the OmniAuth hash (`UserModel.Auth`);
- the browser's media-query state.

The random slug token is a nondeterministic choice of eight lower-case hex digits.

## Model

| member | source | states |
|---|---|---|
| PostModel.Parameterize | app/models/post.rb:28 | the slug base has only lower-case ASCII letters, digits, `_` and single hyphens, and no hyphen at either end |
| PostModel.ParameterizeTwoWords | app/models/post.rb:28 | two words separated by a space become the two words downcased and joined by one hyphen |
| PostModel.ParameterizeHelloWorld | app/models/post.rb:28 | the title "Hello World" gives the base "hello-world" |
| PostModel.ParameterizeWithoutWordChars | app/models/post.rb:28-29 | a title with no ASCII word character gives an empty base, the case that falls back to a random token |
| PostModel.BaseSlug | app/models/post.rb:28-29 | the base is the parameterized title when that is non-empty, otherwise an 8-character lower-case hex token; never empty |
| PostModel.DecimalInjective | app/models/post.rb:35 | different counters render as different decimal strings |
| PostModel.Candidate | app/models/post.rb:35 | the k-th candidate starts with the base; it is the base itself exactly for k = 0, otherwise the base, a hyphen and k in decimal |
| PostModel.CandidateInjective | app/models/post.rb:35 | different probe counts give different candidates `base`, `base-1`, `base-2`, … |
| PostModel.ProbeSlug | app/models/post.rb:31-37 | the loop ends after at most (number of taken slugs + 1) probes, on a candidate that is not taken, and every earlier candidate is taken |
| PostModel.ProbesFit | app/models/post.rb:34-37 | when the first n candidates are all taken, at least n slugs are taken, so the probe loop terminates |
| PostModel.FirstFreeIsUnique | app/models/post.rb:34-37 | the first free candidate is unique, so the probe order determines the slug |
| PostModel.SecondPostGetsSuffixOne | app/models/post.rb:31-37 | when only the base itself is taken, the slug is the base followed by "-1" |
| PostModel.GenerateSlug | app/models/post.rb:27-38 | the slug is present and not taken, and is the first free candidate of the parameterized title or of a hex token |
| PostModel.LastSpaceAtOrBefore | app/models/post.rb:41 | finds the last space at or before a position, or reports that there is none |
| PostModel.Truncate | app/models/post.rb:41 | the excerpt has at most 200 characters; content of 200 or fewer is copied unchanged; longer content is a prefix, cut at the last space at or before index 197 (or at 197 when there is none), followed by "..." |
| PostModel.ExcerptIsWordPrefix | app/models/post.rb:41 | a truncated excerpt ends in "...", and what precedes it is a prefix of the content that stops just before a space or at 197 characters |
| PostModel.BeforeValidation | app/models/post.rb:12-13 | a present slug is kept; a blank one is generated, not taken, and the first free candidate of the parameterized title or, when that is empty, of some 8-digit hex token; an excerpt is generated only when it is blank and content is present; nothing else changes |
| PostModel.Errors | app/models/post.rb:7-9 | no error exactly when title and content are present and the slug is present and used by no other post |
| PostModel.Published | app/models/post.rb:16 | the published scope holds only stored posts |
| PostModel.Drafts | app/models/post.rb:17 | the drafts scope holds only stored posts |
| PostModel.ScopesPartition | app/models/post.rb:16-17 | `published` and `drafts` split the posts into two disjoint scopes that cover every post: a post is in `published` exactly when its `published` flag is set, and in `drafts` exactly when it is not |
| Schema.NewPostRow | db/schema.rb:36-46 | a new post is unpublished with a like count of 0 and every nullable column nil |
| LikeModel.Count | app/models/like.rb:4 | the number of likes of a post, at most the size of the table |
| LikeModel.CountIsRowsOf | app/models/like.rb:4 | the count equals the number of rows that reference the post, the quantity `likes_count` caches |
| LikeModel.CountAbsent | app/models/like.rb:4 | a post no like references has a count of zero |
| LikeModel.CountConcat | app/models/like.rb:4 | the number of likes of a post adds up over concatenated tables |
| LikeModel.RemoveAt | app/models/like.rb:4 | deleting row i keeps every other row in order |
| LikeModel.CountRemoveAt | app/models/like.rb:4 | deleting a like lowers its post's count by one and no other post's |
| LikeModel.WithoutPost | app/models/post.rb:4 | the post's likes cascade: exactly the rows of other posts remain |
| LikeModel.CountWithoutPost | app/models/post.rb:4 | after the cascade the destroyed post counts zero and every other post keeps its count |
| LikeModel.Nullify | app/models/user.rb:5 | every like of the user loses its user and keeps its post and address; no other row changes |
| LikeModel.CountNullify | app/models/user.rb:5 | nullifying changes no post's count |
| LikeModel.FilterKeepsIndexes | db/schema.rb:30-31 | deleting any subset of likes keeps both partial unique indexes |
| LikeModel.RemoveAtKeepsIndexes | db/schema.rb:30-31 | deleting one like keeps both partial unique indexes |
| LikeModel.NullifyKeepsIndexesIff | app/models/user.rb:5 | the nullified table satisfies the indexes exactly when no nullified like collides with an anonymous like of the same post and address |
| LikeModel.SecondUserLikeRejected | app/models/like.rb:8 | a user's second like of a post is rejected from any address, under both versions of the validations |
| LikeModel.AddressRuleSkipsUserLikes | app/models/like.rb:8-9 | a like that has a user is never refused for its address, and moving it to an equally blank or present address changes none of its errors, under both versions |
| LikeModel.AnonymousIpRuleScope | app/models/like.rb:9 | an anonymous like from the same address on the same post is rejected; another address, or another post, is accepted |
| LikeModel.ErrorsAsWritten | app/models/like.rb:7-9 | as written: the address error exactly for a blank address, the user error only for a like with a user, the address-taken error only for an anonymous like; an accepted like collides with no stored like on the partial unique indexes |
| LikeModel.Errors | app/models/like.rb:7-9 | corrected: the same error kinds, and no error exactly when the address is present and the like collides with no stored like on the partial unique indexes |
| LikeModel.ErrorsMatchIndexes | app/models/like.rb:7-9 | the corrected validations accept a like exactly when its address is present and both partial unique indexes hold with it added |
| LikeModel.AnonymousLikeRejectedAsWritten | app/models/like.rb:9 | as written, an anonymous like is rejected because a logged-in user liked from the same address, although the indexes would accept it |
| LikeModel.CorrectionOnlyAdmitsAnonymous | app/models/like.rb:9 | the correction rejects nothing the written rule accepts, and changes nothing for likes that have a user |
| LikeModel.ByIp | app/models/like.rb:11 | `by_ip(ip)` holds exactly the likes whose address is `ip` |
| UserModel.IsAdmin | app/models/user.rb:20-22 | a user is an admin exactly when the GitHub login is present and equals "AnsibleMage" (case-sensitive); an admin therefore has a present login |
| UserModel.AtMostOneAdmin | app/models/user.rb:20-22 | because logins are unique, at most one user is an admin |
| UserModel.AdminIsCaseSensitive | app/models/user.rb:20-22 | the login "ansiblemage" is not an admin; case matters |
| UserModel.DisplayName | app/models/user.rb:24-26 | the name when it is present, otherwise the GitHub login |
| UserModel.DisplayNameFallsBack | app/models/user.rb:24-26 | a nil or empty name falls back to the login; a validated user always has a present display name |
| UserModel.UserErrors | app/models/user.rb:7-8 | no error exactly when GitHub id and login are present and no other user has the same id or the same login |
| UserModel.ValidUserKeepsIndexes | app/models/user.rb:7-8 | a user record that passes validation can be written without breaking the unique `github_id` and `github_login` indexes |
| UserModel.WithProfile | app/models/user.rb:12-16 | the login, name and avatar come from the GitHub profile; the GitHub id is kept |
| PostLikeable.Matches | app/controllers/concerns/post_likeable.rb:13-18 | a matching like belongs to the post, never to another user, and for an anonymous caller comes from the caller's address |
| PostLikeable.FindUserLike | app/controllers/concerns/post_likeable.rb:12-20 | returns the first like of the post that matches the caller, or nothing when none matches |
| PostLikeable.UserLiked | app/controllers/concerns/post_likeable.rb:22-28 | true exactly when some like of the post matches the caller |
| PostLikeable.UserLikedIffFound | app/controllers/concerns/post_likeable.rb:12-28 | `user_liked?` holds exactly when `find_user_like` finds a like |
| PostLikeable.LoggedInIgnoresIp | app/controllers/concerns/post_likeable.rb:13-15 | a logged-in caller gets the same like from any address |
| PostLikeable.AnonymousNeverMatchesOwnedLike | app/controllers/concerns/post_likeable.rb:16-18 | an anonymous caller only matches a like that has no user and the caller's address |
| PostLikeable.MatchesIsIndexKey | app/controllers/concerns/post_likeable.rb:12-20 | a like matches the caller exactly when it collides, on the partial unique indexes, with the like the caller would create |
| PostLikeable.MatchIsUnique | app/controllers/concerns/post_likeable.rb:12-20 | under the indexes at most one like matches a caller |
| PostLikeable.SaveRejectedIffLiked | app/models/like.rb:7-9 | with the corrected validations, a caller's like is rejected exactly when the address is blank or the caller already liked the post |
| PostLikeable.AnonymousVisitorLockedOutAsWritten | app/models/like.rb:9 | as written, that anonymous visitor can neither like the post nor find a like to remove |
| PostLikeable.AppendedLikeIsLiked | app/controllers/concerns/post_likeable.rb:22-28 | the like a request appends is one the same request's `user_liked?` finds |
| PostLikeable.LikeThenUnlikeFindsNewRow | app/controllers/likes_controller.rb:8-38 | after a first like, the lookup finds the new row, and removing it gives back the original table |
| PostLikeable.UnlikeLeavesNoMatch | app/controllers/likes_controller.rb:24-27 | after the found like is removed, no like of the caller remains |
| Store.InsertPostKeeps | app/models/post.rb:7-9 | inserting a validated post with an unused slug and a zero count keeps every constraint |
| Store.RewritePostKeeps | app/models/post.rb:7-9 | rewriting a post with a validated row whose slug no other post uses keeps every constraint |
| Store.DeletePostKeeps | app/models/post.rb:3-4 | deleting a post with its likes and comments keeps the indexes, foreign keys and counts |
| Store.AppendLikeKeeps | app/models/like.rb:4 | adding an accepted like and counting it keeps every constraint |
| Store.RemoveLikeKeeps | app/models/like.rb:4 | removing a like and uncounting it keeps every constraint |
| Store.RemoveLikeKeepsCounters | app/models/like.rb:4 | removing a like and lowering its post's count keeps every post's count equal to its likes |
| Store.RemoveLikeKeepsRows | app/models/like.rb:4 | removing a like keeps the foreign keys and the present addresses of the others |
| Store.NullifyKeepsCounters | app/models/user.rb:5 | nullifying a user's likes changes no post's like count |
| Store.DeleteUserKeepsForeignKeys | app/models/user.rb:4-5 | once the user's comments are gone and likes nullified, no row refers to the deleted user |
| Store.DeleteUserKeeps | app/models/user.rb:4-5 | deleting a user, destroying their comments and nullifying their likes keeps every constraint when nothing collides |
| Store.WriteUserKeeps | app/models/user.rb:7-8 | writing a validated user keeps every constraint |
| Store.Db.FindBySlug | app/controllers/concerns/post_likeable.rb:9 | finds a post with the slug, or reports that no post has it |
| Store.Db.SlugNamesOnePost | db/schema.rb:45 | under the slug index a slug names at most one post |
| Store.Db.CreatePost | app/models/post.rb:7-13 | succeeds exactly when title and content are present and a given slug is unused; the new post has a fresh id, the given title, content and published flag, a zero count, the given excerpt or, when that is blank and content present, the truncated content, and the given slug or else an unused one that is the first free candidate of the parameterized title or, when that is empty, of some 8-digit hex token; the id sequence advances by one; on failure no table and no id sequence changes |
| Store.Db.UpdatePost | app/models/post.rb:7-13 | succeeds exactly when title and content are present and a given slug is not another post's; the post keeps its count and gets the given title, content and published flag; the excerpt is the given one or, when blank with content present, the truncated content; a regenerated slug avoids every stored slug, its own old one included, and is the first free candidate of the parameterized title or, when that is empty, of some 8-digit hex token |
| Store.Db.DestroyPost | app/models/post.rb:3-4 | removes the post with its likes and comments; everything else is kept |
| Store.Db.SaveLike | app/models/like.rb:4-9 | with the corrected address rule (see ## Findings; `PostLikeable.AnonymousVisitorLockedOutAsWritten` gives the outcome as written): appends the like and raises its post's count by one exactly when the post exists, the address is present and the partial unique indexes still hold; otherwise nothing changes |
| Store.Db.DestroyLike | app/models/like.rb:4 | removes exactly that like and lowers its post's count by one |
| Store.Db.DestroyUser | app/models/user.rb:4-5 | destroys the user's comments, nullifies their likes and removes the user, unless a nullified like would collide with an anonymous one; then nothing changes |
| Store.Db.FindOrCreateFromGithub | app/models/user.rb:10-18 | succeeds exactly when the uid and nickname are present and the login is free or held by the same GitHub account; reuses the existing user with that uid or adds one under the next user id, which then advances; writes the profile; on failure nothing changes |
| Store.SignInTwice | app/models/user.rb:10-18 | a second sign-in with the same profile returns the same user and changes nothing: afterwards the users table is the original with that user's row set to the profile, the user id sequence has advanced only if the first sign-in created the user, and the other tables are untouched |
| LikesController.LikeParams | app/controllers/likes_controller.rb:42-47 | the like a request builds carries the request's address and user, and the same request's lookup matches it |
| LikesController.Create | app/controllers/likes_controller.rb:8-22 | with the corrected address rule (see ## Findings; `PostLikeable.AnonymousVisitorLockedOutAsWritten` gives the outcome as written): 404 when no post has the slug; otherwise the like is saved and counted exactly when the address is present and the caller had not liked the post, and afterwards the caller has liked it; a failed save changes nothing; users, comments and both id sequences never change |
| LikesController.CreateResponse | app/controllers/likes_controller.rb:11-21 | the response reports success exactly when the like was saved |
| LikesController.Destroy | app/controllers/likes_controller.rb:24-38 | 404 when no post has the slug; otherwise a like is removed exactly when the caller had liked the post: exactly the found like goes and the count drops by one, leaving no like of the caller; with none, nothing changes; users, comments and both id sequences never change |
| LikesController.DestroyResponse | app/controllers/likes_controller.rb:27-37 | the response reports success exactly when a like was removed |
| LikesController.LikeThenUnlike | app/controllers/likes_controller.rb:8-38 | a like followed by an unlike from the same identity restores the likes table and every count, and leaves users, comments and both id sequences untouched |
| ApplicationHelper.LanguageColor | app/helpers/application_helper.rb:2-14 | the result is always one of nine fixed non-empty classes |
| ApplicationHelper.LanguageColorLookup | app/helpers/application_helper.rb:3-13 | each of the eight languages gets its own entry; nil and every other key get "bg-gray-400" |
| ApplicationHelper.LowerCaseRubyIsGrey | app/helpers/application_helper.rb:13 | "ruby" in lower case is grey |
| ApplicationHelper.ListedLanguagesAreDistinguished | app/helpers/application_helper.rb:3-12 | no listed language is grey, and different listed languages get different colours |
| DarkMode.SystemTheme | app/javascript/controllers/dark_mode_controller.js:73-80 | nothing without `matchMedia`, otherwise "dark" exactly when the preference is dark and "light" otherwise |
| DarkMode.ResolveTheme | app/javascript/controllers/dark_mode_controller.js:61-63 | a truthy stored theme wins, then the system theme, then "light" |
| DarkMode.UnstoredThemeFollowsSystem | app/javascript/controllers/dark_mode_controller.js:61-80 | without a stored theme the theme is "dark" or "light", dark exactly when `matchMedia` exists and prefers dark |
| DarkMode.IsThemeDark | app/javascript/controllers/dark_mode_controller.js:82-84 | a theme is dark exactly when it is the string "dark", so never "light" |
| DarkMode.OnlyExactDarkIsDark | app/javascript/controllers/dark_mode_controller.js:82-84 | "Dark" is not dark; only the exact string is |
| DarkMode.DarkModeController.GetTheme | app/javascript/controllers/dark_mode_controller.js:61-63 | a truthy stored theme is the theme; otherwise the theme is "dark" or "light", dark exactly when `matchMedia` exists and prefers dark |
| DarkMode.Element.ToggleClass | app/javascript/controllers/dark_mode_controller.js:96 | the class is present exactly when forced; other classes are kept |
| DarkMode.DarkModeController.SetTheme | app/javascript/controllers/dark_mode_controller.js:65-67 | the stored theme becomes the given one and, when non-empty, is the theme |
| DarkMode.DarkModeController.ApplyThemeToHtml | app/javascript/controllers/dark_mode_controller.js:92-97 | the html `dark` class is present exactly when the theme is dark; other classes are kept |
| DarkMode.DarkModeController.UpdateIcon | app/javascript/controllers/dark_mode_controller.js:99-110 | with both icons, exactly one is visible: the light icon in dark mode, the dark icon in light mode; with either missing, nothing changes |
| DarkMode.DarkModeController.UpdateMetaThemeColor | app/javascript/controllers/dark_mode_controller.js:112-121 | the meta colour becomes "#0D0D0D" for dark and "#FFFFFF" otherwise, when the tag exists |
| DarkMode.DarkModeController.ApplyTheme | app/javascript/controllers/dark_mode_controller.js:53-59 | the html class, the icons and the meta colour all show the current theme; html keeps its transition and its other classes, and each icon keeps its classes other than "hidden" |
| DarkMode.DarkModeController.Toggle | app/javascript/controllers/dark_mode_controller.js:41-49 | stores "light" when the theme was dark and "dark" otherwise; darkness afterwards is the negation of darkness before, and the page shows it; the media-query state, html's transition and other classes, and the icons' classes other than "hidden" are kept |
| DarkMode.DarkModeController.HandleSystemPreferenceChange | app/javascript/controllers/dark_mode_controller.js:193-198 | with a stored theme nothing on the page changes; without one, the page shows the system preference; either way html keeps its transition and its other classes, and each icon its classes other than "hidden" |
| DarkMode.DarkModeController.HandleTurboBeforeRender | app/javascript/controllers/dark_mode_controller.js:145-150 | the incoming body has the `dark` class exactly when the current theme is dark |
| DarkMode.DarkModeController.HandleTurboBeforeCache | app/javascript/controllers/dark_mode_controller.js:152-154 | the html transition style is cleared and nothing else changes |
| DarkMode.ToggleTwice | app/javascript/controllers/dark_mode_controller.js:41-49 | two toggles restore the darkness of the page |

## Left out

- Tags and search: the test files describe them, but the source has no implementation to model.
- The `recent` scope, timestamps and `to_param`: ordering by creation time needs clocks. `to_param` is the slug, which `Store.Db.FindBySlug` looks up.
- PostModel.Parameterize: only ASCII is modelled.
  - Rails first transliterates non-ASCII letters (so "é" becomes "e"). Here every non-ASCII character is a separator.
  - The result is the same for titles with no transliterable letters, such as Korean titles, which both turn into an empty base.
- Common.BlankString: only the six ASCII whitespace characters count as blank. Ruby's `blank?` also skips Unicode spaces.
- `SecureRandom.hex(4)` is a nondeterministic choice among all eight-digit lower-case hex strings.
- Concurrency: operations are sequential. The unique indexes are invariants, not a backstop for races between the slug probe and the insert. Only the rollback of `User#destroy` is modelled among transactions.
- Store.Db.SaveLike: requires that a given user exists. `belongs_to :user, optional: true` performs no check, and the foreign key would raise.
- UserModel.UserErrors: reports "taken" only for a non-nil value. A nil GitHub id or login is reported as blank.
- Comments: only the two cascades (post destroy, user destroy) and the foreign keys are modelled. Comment creation and the comments controller are not part of this model.
- The dark-mode listener wiring (`connect`, `disconnect`, `setupTurboListeners`, `setupSystemPreferenceListener`, the add/remove listener fallbacks): this is event registration with the browser.
  - The handlers it registers are modelled as methods.
  - A system-preference change is modelled by setting the `prefersDark` field and then calling `HandleSystemPreferenceChange`.
- Responses: only the status code and the flash message of each format are modelled. Turbo Stream templates and redirect targets are rendering.
- OAuth and sessions: the OmniAuth hash is the input `UserModel.Auth`.
- Integer width: ids and `likes_count` are unbounded.
- `User#destroy` can be refused. The user's likes are nullified with one update. If one of them would then collide with an existing anonymous like of the same post from the same address, the partial unique index refuses the update and the destroy rolls back.
  - The model follows the code: `Store.Db.DestroyUser` reports the refusal, and `LikeModel.NullifyKeepsIndexesIff` characterises it.

## Findings

| source | as written | input that shows it | evidently intended | confidence | as-written member | corrected member |
|---|---|---|---|---|---|---|
| app/models/like.rb:9 | when the like has no user, `ip_address` must be unique among all likes of the post, including likes that have a user | likes `[(post 1, user 7, "203.0.113.5")]`, then an anonymous like of post 1 from "203.0.113.5" | unique only among likes with no user. The partial index `index_likes_on_post_and_ip_anonymous` (db/schema.rb:30) and the anonymous lookup (post_likeable.rb:18) both assume this. As written, the visitor can neither like the post nor find a like to remove | high, not executed | LikeModel.AnonymousLikeRejectedAsWritten | LikeModel.ErrorsMatchIndexes |
