/**
 * The like button's two actions. A request names a post by slug and comes
 * from a visitor who is either logged in or identified by a remote IP
 * address. `create` saves the like the request builds; `destroy` deletes the
 * like `find_user_like` returns. Both answer a Turbo Stream or an HTML
 * redirect back to the post. `create` saves under the corrected address
 * rule; as written, an anonymous visitor behind the address of a logged-in
 * user's like gets "Already liked!" although nothing matches them
 * (`PostLikeable.AnonymousVisitorLockedOutAsWritten`).
 */
module LikesController {
  import opened Common
  import opened Schema
  import LikeModel
  import opened PostLikeable
  import opened Store

  /** `like_params` applied through `@post.likes.build`: the row a request
      would create is one that the same request's lookup matches. */
  function LikeParams(post: PostId, currentUser: Option<UserId>, remoteIp: string): (row: LikeRow)
    ensures row.postId == post && row.ipAddress == remoteIp
    ensures Matches(row, post, currentUser, remoteIp)
  {
    LikeRow(post, currentUser, remoteIp)
  }

  datatype CreateOutcome =
    | Liked(post: PostId, like: nat)
    | NotLiked(post: PostId, errors: set<LikeModel.LikeError>)
    | PostNotFound

  datatype DestroyOutcome =
    | Unliked(post: PostId)
    | NothingToUnlike(post: PostId)
    | NoSuchPost

  datatype Format = TurboStream | Html

  datatype Flash = Notice(text: string) | Alert(text: string)

  /** What the client receives: a rendered stream with a status, a redirect
      to the post with an optional flash message, or a bare status. */
  datatype Response =
    | Stream(status: nat)
    | RedirectToPost(flash: Option<Flash>)
    | Head(status: nat)

  /** A response that reports success: a stream with status 200 or a
      redirect that carries a notice. */
  predicate Succeeded(r: Response)
  {
    (r.Stream? && r.status == 200) || (r.RedirectToPost? && r.flash.Some? && r.flash.value.Notice?)
  }

  /** `create`: find the post by slug (404 when there is none), build the
      like from the request's identity and save it under the corrected
      address rule. The like is saved and counted exactly when the address
      is present and the caller has not already liked the post. */
  method Create(db: Db, slug: string, currentUser: Option<UserId>, remoteIp: string)
    returns (o: CreateOutcome)
    requires db.Valid()
    requires currentUser.Some? ==> currentUser.value in db.users
    modifies db
    ensures db.Valid()
    ensures o.PostNotFound? <==> slug !in old(db.Slugs())
    ensures !o.PostNotFound? ==> o.post in old(db.posts) && old(db.posts)[o.post].slug == Some(slug)
    ensures !o.PostNotFound? ==> (
      o.Liked? <==> !BlankString(remoteIp) && !UserLiked(old(db.likes), o.post, currentUser, remoteIp))
    ensures o.Liked? ==> (
      db.likes == old(db.likes) + [LikeParams(o.post, currentUser, remoteIp)] &&
      o.like == |old(db.likes)| &&
      UserLiked(db.likes, o.post, currentUser, remoteIp) &&
      o.post in db.posts &&
      db.posts == Recount(old(db.posts), o.post, 1))
    ensures !o.Liked? ==> db.likes == old(db.likes) && db.posts == old(db.posts)
    ensures db.users == old(db.users) && db.comments == old(db.comments)
    ensures db.nextPostId == old(db.nextPostId) && db.nextUserId == old(db.nextUserId)
  {
    var found := db.FindBySlug(slug);
    if found.None? {
      return PostNotFound;
    }
    var post := found.value;
    var row := LikeParams(post, currentUser, remoteIp);
    ghost var before := db.likes;
    SaveRejectedIffLiked(before, post, currentUser, remoteIp);
    ghost var rejected := BlankString(remoteIp) || UserLiked(before, post, currentUser, remoteIp);
    assert rejected <==> LikeModel.Errors(before, row) != {};
    var r := db.SaveLike(row);
    if r.Ok? {
      AppendedLikeIsLiked(before, post, currentUser, remoteIp);
      assert db.likes == before + [LikeRow(post, currentUser, remoteIp)];
      o := Liked(post, r.value);
    } else {
      o := NotLiked(post, r.error);
    }
  }

  /** The responses of `create`: a rendered stream (422 when the save
      failed) or a redirect with "Thanks for the like!" or "Already liked!";
      a missing post is a 404. */
  function CreateResponse(o: CreateOutcome, format: Format): (r: Response)
    ensures Succeeded(r) <==> o.Liked?
    ensures o.PostNotFound? <==> r == Head(404)
  {
    match o
    case PostNotFound => Head(404)
    case Liked(_, _) =>
      if format == TurboStream then Stream(200) else RedirectToPost(Some(Notice("Thanks for the like!")))
    case NotLiked(_, _) =>
      if format == TurboStream then Stream(422) else RedirectToPost(Some(Alert("Already liked!")))
  }

  /** `destroy`: find the post by slug (404 when there is none), look up the
      caller's like and delete it. A like is removed exactly when the caller
      had liked the post; afterwards no like of the caller remains. */
  method Destroy(db: Db, slug: string, currentUser: Option<UserId>, remoteIp: string)
    returns (o: DestroyOutcome)
    requires db.Valid()
    modifies db
    ensures db.Valid()
    ensures o.NoSuchPost? <==> slug !in old(db.Slugs())
    ensures !o.NoSuchPost? ==> o.post in old(db.posts) && old(db.posts)[o.post].slug == Some(slug)
    ensures !o.NoSuchPost? ==> (o.Unliked? <==> UserLiked(old(db.likes), o.post, currentUser, remoteIp))
    ensures o.Unliked? ==> (
      var i := FindUserLike(old(db.likes), o.post, currentUser, remoteIp);
      i.Some? && i.value < |old(db.likes)| &&
      db.likes == LikeModel.RemoveAt(old(db.likes), i.value) &&
      !UserLiked(db.likes, o.post, currentUser, remoteIp) &&
      o.post in db.posts &&
      db.posts == Recount(old(db.posts), o.post, -1))
    ensures !o.Unliked? ==> db.likes == old(db.likes) && db.posts == old(db.posts)
    ensures db.users == old(db.users) && db.comments == old(db.comments)
    ensures db.nextPostId == old(db.nextPostId) && db.nextUserId == old(db.nextUserId)
  {
    var found := db.FindBySlug(slug);
    if found.None? {
      return NoSuchPost;
    }
    var post := found.value;
    UserLikedIffFound(db.likes, post, currentUser, remoteIp);
    var like := FindUserLike(db.likes, post, currentUser, remoteIp);
    if like.None? {
      return NothingToUnlike(post);
    }
    UnlikeLeavesNoMatch(db.likes, post, currentUser, remoteIp);
    assert db.likes[like.value].postId == post;
    db.DestroyLike(like.value);
    o := Unliked(post);
  }

  /** The responses of `destroy`: a rendered stream or a redirect with
      "Like removed"; with nothing to remove, a bare 404 or a plain
      redirect; a missing post is a 404. */
  function DestroyResponse(o: DestroyOutcome, format: Format): (r: Response)
    ensures Succeeded(r) <==> o.Unliked?
    ensures o.NoSuchPost? ==> r == Head(404)
  {
    match o
    case NoSuchPost => Head(404)
    case Unliked(_) =>
      if format == TurboStream then Stream(200) else RedirectToPost(Some(Notice("Like removed")))
    case NothingToUnlike(_) =>
      if format == TurboStream then Head(404) else RedirectToPost(None)
  }

  /** Raising one post's like count and lowering it again gives back the
      same posts. */
  lemma CountUpThenDown(posts: map<PostId, PostRow>, p: PostId)
    requires p in posts
    ensures Recount(Recount(posts, p, 1), p, -1) == posts
  {
    var up := Recount(posts, p, 1);
    assert up[p].(likesCount := up[p].likesCount - 1) == posts[p];
  }

  /** Liking then unliking from one identity restores the likes table and
      every post's count. */
  method LikeThenUnlike(db: Db, slug: string, currentUser: Option<UserId>, remoteIp: string)
    returns (created: CreateOutcome, removed: DestroyOutcome)
    requires db.Valid()
    requires currentUser.Some? ==> currentUser.value in db.users
    modifies db
    ensures db.Valid()
    ensures created.Liked? ==> removed.Unliked? && removed.post == created.post
    ensures created.Liked? ==> db.likes == old(db.likes) && db.posts == old(db.posts)
    ensures db.users == old(db.users) && db.comments == old(db.comments)
    ensures db.nextPostId == old(db.nextPostId) && db.nextUserId == old(db.nextUserId)
  {
    created := Create(db, slug, currentUser, remoteIp);
    ghost var likesAfterCreate := db.likes;
    ghost var postsAfterCreate := db.posts;
    removed := Destroy(db, slug, currentUser, remoteIp);
    if created.Liked? {
      var p := created.post;
      assert !removed.NoSuchPost? by {
        assert slug == postsAfterCreate[p].slug.value;
      }
      assert postsAfterCreate[removed.post].slug == Some(slug);
      db.SlugNamesOnePost(slug, p, removed.post);
      assert likesAfterCreate == old(db.likes) + [LikeRow(p, currentUser, remoteIp)];
      LikeThenUnlikeFindsNewRow(old(db.likes), p, currentUser, remoteIp);
      CountUpThenDown(old(db.posts), p);
    }
  }
}
