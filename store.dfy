/**
 * The blog's database as one object: the four tables, the id sequences, and
 * the model-level operations that change them. Each operation runs the
 * model's callbacks and validations, writes the rows, and keeps the
 * schema's constraints and the `likes_count` counter cache. Likes are
 * saved under the corrected address rule (`LikeModel.Errors`), which scopes
 * the anonymous address check to likes without a user; the rule as written
 * is `LikeModel.ErrorsAsWritten`.
 */
module Store {
  import opened Common
  import opened Schema
  import PostModel
  import LikeModel
  import UserModel

  /** A post row that passed the post validations. */
  ghost predicate PostValid(p: PostRow)
  {
    Present(p.title) && Present(p.content) && Present(p.slug)
  }

  /** A user row that passed the user validations. */
  ghost predicate UserValid(u: UserRow)
  {
    Present(u.githubId) && Present(u.githubLogin)
  }

  /** The counter cache: every post's `likes_count` is its number of likes. */
  ghost predicate CountersHold(posts: map<PostId, PostRow>, likes: seq<LikeRow>)
  {
    forall p :: p in posts ==> posts[p].likesCount == LikeModel.Count(likes, p)
  }

  /** Every stored row passed its model's validations. */
  ghost predicate RowsValid(posts: map<PostId, PostRow>, users: map<UserId, UserRow>,
                            likes: seq<LikeRow>)
  {
    (forall p :: p in posts ==> PostValid(posts[p])) &&
    (forall u :: u in users ==> UserValid(users[u])) &&
    (forall i :: 0 <= i < |likes| ==> !BlankString(likes[i].ipAddress))
  }

  /** The next ids are above every id in use. */
  ghost predicate IdsBelow(posts: map<PostId, PostRow>, users: map<UserId, UserRow>,
                           nextPostId: PostId, nextUserId: UserId)
  {
    (forall p :: p in posts ==> p < nextPostId) && (forall u :: u in users ==> u < nextUserId)
  }

  /** The state every operation keeps: the schema's constraints, the model
      validations, the counter cache and the id sequences. */
  ghost predicate Consistent(posts: map<PostId, PostRow>, likes: seq<LikeRow>,
                             users: map<UserId, UserRow>, comments: seq<CommentRow>,
                             nextPostId: PostId, nextUserId: UserId)
  {
    SlugIndexHolds(posts) && LikeIndexesHold(likes) && UserIndexesHold(users) &&
    ForeignKeysHold(posts, users, likes, comments) && CountersHold(posts, likes) &&
    RowsValid(posts, users, likes) && IdsBelow(posts, users, nextPostId, nextUserId)
  }

  /** The comments of every post but `gone`. */
  function CommentsWithoutPost(comments: seq<CommentRow>, gone: PostId): (r: seq<CommentRow>)
    ensures forall x :: x in r <==> x in comments && x.postId != gone
  {
    Filter(comments, (c: CommentRow) => c.postId != gone)
  }

  /** The comments of every user but `gone`. */
  function CommentsWithoutUser(comments: seq<CommentRow>, gone: UserId): (r: seq<CommentRow>)
    ensures forall x :: x in r <==> x in comments && x.userId != gone
  {
    Filter(comments, (c: CommentRow) => c.userId != gone)
  }

  // ---------------------------------------------------------------------
  // Each write keeps the consistent state
  // ---------------------------------------------------------------------

  /** Inserting a validated post with a fresh id, an unused slug and a zero
      count. */
  lemma InsertPostKeeps(posts: map<PostId, PostRow>, likes: seq<LikeRow>,
                        users: map<UserId, UserRow>, comments: seq<CommentRow>,
                        np: PostId, nu: UserId, p: PostRow)
    requires Consistent(posts, likes, users, comments, np, nu)
    requires PostValid(p) && p.likesCount == 0
    requires p.slug.value !in PostModel.OtherSlugs(posts, None)
    ensures Consistent(posts[np := p], likes, users, comments, np + 1, nu)
  {
    LikeModel.CountAbsent(likes, np);
    var ps := posts[np := p];
    forall a, b | a in ps && b in ps && a != b && ps[a].slug.Some?
      ensures ps[a].slug != ps[b].slug
    {
      if a == np {
        assert ps[b].slug.value in PostModel.OtherSlugs(posts, None);
      } else if b == np {
        assert ps[a].slug.value in PostModel.OtherSlugs(posts, None);
      }
    }
  }

  /** Rewriting stored post `id` with a validated row that keeps its count
      and whose slug no other post uses. */
  lemma RewritePostKeeps(posts: map<PostId, PostRow>, likes: seq<LikeRow>,
                         users: map<UserId, UserRow>, comments: seq<CommentRow>,
                         np: PostId, nu: UserId, id: PostId, p: PostRow)
    requires Consistent(posts, likes, users, comments, np, nu)
    requires id in posts && PostValid(p) && p.likesCount == posts[id].likesCount
    requires p.slug.value !in PostModel.OtherSlugs(posts, Some(id))
    ensures Consistent(posts[id := p], likes, users, comments, np, nu)
  {
    var ps := posts[id := p];
    forall a, b | a in ps && b in ps && a != b && ps[a].slug.Some?
      ensures ps[a].slug != ps[b].slug
    {
      if a == id {
        assert ps[b].slug.value in PostModel.OtherSlugs(posts, Some(id));
      } else if b == id {
        assert ps[a].slug.value in PostModel.OtherSlugs(posts, Some(id));
      }
    }
  }

  /** Deleting post `id` together with its likes and comments. */
  lemma DeletePostKeeps(posts: map<PostId, PostRow>, likes: seq<LikeRow>,
                        users: map<UserId, UserRow>, comments: seq<CommentRow>,
                        np: PostId, nu: UserId, id: PostId)
    requires Consistent(posts, likes, users, comments, np, nu)
    ensures Consistent(posts - {id}, LikeModel.WithoutPost(likes, id), users,
                       CommentsWithoutPost(comments, id), np, nu)
  {
    var ps := posts - {id};
    var ls := LikeModel.WithoutPost(likes, id);
    var cs := CommentsWithoutPost(comments, id);
    LikeModel.FilterKeepsIndexes(likes, (l: LikeRow) => l.postId != id);
    forall p | p in ps
      ensures ps[p].likesCount == LikeModel.Count(ls, p)
    {
      LikeModel.CountWithoutPost(likes, id, p);
    }
    forall i | 0 <= i < |ls|
      ensures ls[i].postId in ps && (ls[i].userId.Some? ==> ls[i].userId.value in users)
      ensures !BlankString(ls[i].ipAddress)
    {
      assert ls[i] in likes;
    }
    forall i | 0 <= i < |cs|
      ensures cs[i].postId in ps && cs[i].userId in users
    {
      assert cs[i] in comments;
    }
  }

  /** Appending a like the indexes accept and counting it on its post. */
  lemma AppendLikeKeeps(posts: map<PostId, PostRow>, likes: seq<LikeRow>,
                        users: map<UserId, UserRow>, comments: seq<CommentRow>,
                        np: PostId, nu: UserId, row: LikeRow)
    requires Consistent(posts, likes, users, comments, np, nu)
    requires row.postId in posts && (row.userId.Some? ==> row.userId.value in users)
    requires !BlankString(row.ipAddress) && LikeIndexesHold(likes + [row])
    ensures Consistent(Recount(posts, row.postId, 1),
                       likes + [row], users, comments, np, nu)
  {
    var ps := Recount(posts, row.postId, 1);
    var ls := likes + [row];
    forall q | q in ps
      ensures ps[q].likesCount == LikeModel.Count(ls, q)
    {
      LikeModel.CountConcat(likes, [row], q);
      assert [row][..0] == [];
    }
    forall i | 0 <= i < |ls|
      ensures ls[i].postId in ps && (ls[i].userId.Some? ==> ls[i].userId.value in users)
      ensures !BlankString(ls[i].ipAddress)
    {
      if i < |likes| {
        assert ls[i] == likes[i];
      }
    }
  }

  /** Deleting like `i` and lowering its post's count keeps every count. */
  lemma RemoveLikeKeepsCounters(posts: map<PostId, PostRow>, likes: seq<LikeRow>, i: nat)
    requires CountersHold(posts, likes)
    requires i < |likes| && likes[i].postId in posts
    ensures var post := likes[i].postId;
      CountersHold(Recount(posts, post, -1),
                   LikeModel.RemoveAt(likes, i))
  {
    var post := likes[i].postId;
    var ps := Recount(posts, post, -1);
    forall q | q in ps
      ensures ps[q].likesCount == LikeModel.Count(LikeModel.RemoveAt(likes, i), q)
    {
      LikeModel.CountRemoveAt(likes, i, q);
    }
  }

  /** Deleting like `i` and uncounting it on its post. */
  lemma RemoveLikeKeeps(posts: map<PostId, PostRow>, likes: seq<LikeRow>,
                        users: map<UserId, UserRow>, comments: seq<CommentRow>,
                        np: PostId, nu: UserId, i: nat)
    requires Consistent(posts, likes, users, comments, np, nu)
    requires i < |likes|
    ensures likes[i].postId in posts
    ensures Consistent(Recount(posts, likes[i].postId, -1),
                       LikeModel.RemoveAt(likes, i), users, comments, np, nu)
  {
    var post := likes[i].postId;
    var ps := Recount(posts, post, -1);
    var ls := LikeModel.RemoveAt(likes, i);
    LikeModel.RemoveAtKeepsIndexes(likes, i);
    RemoveLikeKeepsCounters(posts, likes, i);
    RemoveLikeKeepsRows(posts, users, likes, comments, i);
  }

  /** Deleting like `i` keeps the foreign keys and the addresses of the
      other likes. */
  lemma RemoveLikeKeepsRows(posts: map<PostId, PostRow>, users: map<UserId, UserRow>,
                            likes: seq<LikeRow>, comments: seq<CommentRow>, i: nat)
    requires ForeignKeysHold(posts, users, likes, comments)
    requires forall k :: 0 <= k < |likes| ==> !BlankString(likes[k].ipAddress)
    requires i < |likes|
    ensures var ls := LikeModel.RemoveAt(likes, i);
      ForeignKeysHold(posts, users, ls, comments) &&
      forall k :: 0 <= k < |ls| ==> !BlankString(ls[k].ipAddress)
  {
    var ls := LikeModel.RemoveAt(likes, i);
    forall k | 0 <= k < |ls|
      ensures ls[k].postId in posts && (ls[k].userId.Some? ==> ls[k].userId.value in users)
      ensures !BlankString(ls[k].ipAddress)
    {
      var k' := if k < i then k else k + 1;
      assert ls[k] == likes[k'];
    }
  }

  /** Nullifying likes changes no count. */
  lemma NullifyKeepsCounters(posts: map<PostId, PostRow>, likes: seq<LikeRow>, u: UserId)
    requires CountersHold(posts, likes)
    ensures CountersHold(posts, LikeModel.Nullify(likes, u))
  {
    forall p | p in posts
      ensures posts[p].likesCount == LikeModel.Count(LikeModel.Nullify(likes, u), p)
    {
      LikeModel.CountNullify(likes, u, p);
    }
  }

  /** Once user `u`'s likes are nullified and comments gone, no row refers to `u`. */
  lemma DeleteUserKeepsForeignKeys(posts: map<PostId, PostRow>, users: map<UserId, UserRow>,
                                   likes: seq<LikeRow>, comments: seq<CommentRow>, u: UserId)
    requires ForeignKeysHold(posts, users, likes, comments)
    ensures ForeignKeysHold(posts, users - {u}, LikeModel.Nullify(likes, u), CommentsWithoutUser(comments, u))
  {
    var ls := LikeModel.Nullify(likes, u);
    var cs := CommentsWithoutUser(comments, u);
    forall i | 0 <= i < |ls|
      ensures ls[i].postId in posts && (ls[i].userId.Some? ==> ls[i].userId.value in users - {u})
    {
      assert ls[i].postId == likes[i].postId;
    }
    forall i | 0 <= i < |cs|
      ensures cs[i].postId in posts && cs[i].userId in users - {u}
    {
      assert cs[i] in comments;
    }
  }

  /** Deleting user `u` with its comments and nullifying its likes, when the
      nullified likes collide with no anonymous like. */
  lemma DeleteUserKeeps(posts: map<PostId, PostRow>, likes: seq<LikeRow>,
                        users: map<UserId, UserRow>, comments: seq<CommentRow>,
                        np: PostId, nu: UserId, u: UserId)
    requires Consistent(posts, likes, users, comments, np, nu)
    requires !LikeModel.NullifyCollides(likes, u)
    ensures Consistent(posts, LikeModel.Nullify(likes, u), users - {u},
                       CommentsWithoutUser(comments, u), np, nu)
  {
    var ls := LikeModel.Nullify(likes, u);
    LikeModel.NullifyKeepsIndexesIff(likes, u);
    NullifyKeepsCounters(posts, likes, u);
    DeleteUserKeepsForeignKeys(posts, users, likes, comments, u);
    forall i | 0 <= i < |ls|
      ensures !BlankString(ls[i].ipAddress)
    {
      assert ls[i].ipAddress == likes[i].ipAddress;
    }
  }

  /** Writing a validated user row under an id in use or the next fresh id. */
  lemma WriteUserKeeps(posts: map<PostId, PostRow>, likes: seq<LikeRow>,
                       users: map<UserId, UserRow>, comments: seq<CommentRow>,
                       np: PostId, nu: UserId, id: UserId, row: UserRow)
    requires Consistent(posts, likes, users, comments, np, nu)
    requires id in users || id == nu
    requires UserModel.UserErrors(users, Some(id), row) == {}
    ensures Consistent(posts, likes, users[id := row], comments, np, if id == nu then nu + 1 else nu)
  {
    UserModel.ValidUserKeepsIndexes(users, id, row);
  }

  class Db {
    var posts: map<PostId, PostRow>
    var likes: seq<LikeRow>
    var users: map<UserId, UserRow>
    var comments: seq<CommentRow>
    var nextPostId: PostId
    var nextUserId: UserId

    ghost predicate Valid()
      reads this
    {
      Consistent(posts, likes, users, comments, nextPostId, nextUserId)
    }

    /** An empty database. */
    constructor()
      ensures Valid()
      ensures posts == map[] && likes == [] && users == map[] && comments == []
    {
      posts := map[];
      likes := [];
      users := map[];
      comments := [];
      nextPostId := 1;
      nextUserId := 1;
    }

    /** Every slug in use: what `Post.exists?(slug:)` consults. */
    function Slugs(): set<string>
      reads this
    {
      PostModel.OtherSlugs(posts, None)
    }

    /** `Post.find_by(slug:)`: the post with this slug, if any. */
    method FindBySlug(slug: string) returns (r: Option<PostId>)
      ensures r.Some? ==> r.value in posts && posts[r.value].slug == Some(slug)
      ensures r.None? <==> slug !in Slugs()
    {
      if exists p :: p in posts && posts[p].slug == Some(slug) {
        var p :| p in posts && posts[p].slug == Some(slug);
        r := Some(p);
      } else {
        r := None;
      }
    }

    /** Under the slug index a slug names at most one post, so the post
        `FindBySlug` returns is the only candidate. */
    lemma SlugNamesOnePost(slug: string, p: PostId, q: PostId)
      requires Valid()
      requires p in posts && q in posts && posts[p].slug == Some(slug) && posts[q].slug == Some(slug)
      ensures p == q
    {
    }

    /** `Post.create`: run the callbacks, validate, and insert the row with a
        fresh id and a zero like count. The save succeeds exactly when title
        and content are present and a given slug is not in use. */
    method CreatePost(title: Option<string>, content: Option<string>, excerpt: Option<string>,
                      slug: Option<string>, published: bool)
      returns (r: Result<PostId, set<PostModel.PostError>>)
      requires Valid()
      modifies this
      ensures Valid()
      ensures r.Ok? <==>
        Present(title) && Present(content) && (Blank(slug) || slug.value !in old(Slugs()))
      ensures r.Ok? ==> (
        r.value !in old(posts) && r.value in posts &&
        posts == old(posts)[r.value := posts[r.value]] &&
        var p := posts[r.value];
        p.title == title && p.content == content && p.published == published &&
        p.likesCount == 0 &&
        p.excerpt == (if Blank(excerpt) && Present(content) then Some(PostModel.Truncate(content.value))
                      else excerpt) &&
        (Present(slug) ==> p.slug == slug) &&
        (Blank(slug) ==> p.slug.Some? && p.slug.value !in old(Slugs())) &&
        (Blank(slug) && PostModel.Parameterize(PostModel.TitleText(title)) != [] ==>
          p.slug.Some? &&
          PostModel.IsFirstFree(p.slug.value, PostModel.Parameterize(PostModel.TitleText(title)), old(Slugs()))) &&
        (Blank(slug) && PostModel.Parameterize(PostModel.TitleText(title)) == [] ==>
          p.slug.Some? &&
          exists base :: PostModel.IsHexToken(base) && PostModel.IsFirstFree(p.slug.value, base, old(Slugs()))))
      ensures r.Err? ==> posts == old(posts) && nextPostId == old(nextPostId)
      ensures r.Ok? ==> r.value == old(nextPostId) && nextPostId == old(nextPostId) + 1
      ensures likes == old(likes) && users == old(users) && comments == old(comments)
      ensures nextUserId == old(nextUserId)
    {
      var row := NewPostRow().(title := title, content := content, excerpt := excerpt,
                               slug := slug, published := published);
      var p := PostModel.BeforeValidation(row, Slugs());
      var errs := PostModel.Errors(p, Slugs());
      if errs != {} {
        return Err(errs);
      }
      var id := nextPostId;
      InsertPostKeeps(posts, likes, users, comments, nextPostId, nextUserId, p);
      posts := posts[id := p];
      nextPostId := nextPostId + 1;
      r := Ok(id);
    }

    /** `Post#update` of stored post `id`: assign the attributes, run the
        callbacks (the slug probe sees every stored slug, this post's old one
        included), validate against the other posts, and write the row. The
        like count is not an assignable attribute and is kept. */
    method UpdatePost(id: PostId, title: Option<string>, content: Option<string>,
                      excerpt: Option<string>, slug: Option<string>, published: bool)
      returns (r: Result<PostId, set<PostModel.PostError>>)
      requires Valid() && id in posts
      modifies this
      ensures Valid()
      ensures r.Ok? <==>
        Present(title) && Present(content) &&
        (Blank(slug) || slug.value !in PostModel.OtherSlugs(old(posts), Some(id)))
      ensures r.Ok? ==> (
        r.value == id && id in posts && posts == old(posts)[id := posts[id]] &&
        var p := posts[id];
        p.title == title && p.content == content && p.published == published &&
        p.likesCount == old(posts[id].likesCount) &&
        p.excerpt == (if Blank(excerpt) && Present(content) then Some(PostModel.Truncate(content.value))
                      else excerpt) &&
        (Present(slug) ==> p.slug == slug) &&
        (Blank(slug) ==> p.slug.Some? && p.slug.value !in old(Slugs())) &&
        (Blank(slug) && PostModel.Parameterize(PostModel.TitleText(title)) != [] ==>
          p.slug.Some? &&
          PostModel.IsFirstFree(p.slug.value, PostModel.Parameterize(PostModel.TitleText(title)), old(Slugs()))) &&
        (Blank(slug) && PostModel.Parameterize(PostModel.TitleText(title)) == [] ==>
          p.slug.Some? &&
          exists base :: PostModel.IsHexToken(base) && PostModel.IsFirstFree(p.slug.value, base, old(Slugs()))))
      ensures r.Err? ==> posts == old(posts)
      ensures likes == old(likes) && users == old(users) && comments == old(comments)
      ensures nextPostId == old(nextPostId) && nextUserId == old(nextUserId)
    {
      var row := posts[id].(title := title, content := content, excerpt := excerpt,
                            slug := slug, published := published);
      var p := PostModel.BeforeValidation(row, Slugs());
      var errs := PostModel.Errors(p, PostModel.OtherSlugs(posts, Some(id)));
      if errs != {} {
        return Err(errs);
      }
      RewritePostKeeps(posts, likes, users, comments, nextPostId, nextUserId, id, p);
      posts := posts[id := p];
      r := Ok(id);
    }

    /** `Post#destroy`: the post's comments and likes go with it
        (`dependent: :destroy`); every other post keeps its rows and count. */
    method DestroyPost(id: PostId)
      requires Valid() && id in posts
      modifies this
      ensures Valid()
      ensures posts == old(posts) - {id}
      ensures likes == LikeModel.WithoutPost(old(likes), id)
      ensures comments == CommentsWithoutPost(old(comments), id)
      ensures users == old(users)
      ensures nextPostId == old(nextPostId) && nextUserId == old(nextUserId)
    {
      DeletePostKeeps(posts, likes, users, comments, nextPostId, nextUserId, id);
      posts, likes, comments := posts - {id}, LikeModel.WithoutPost(likes, id), CommentsWithoutPost(comments, id);
    }

    /** `Like#save` with the corrected validations: the row is appended and
        its post's `likes_count` goes up by one exactly when the post exists,
        the address is present and both partial unique indexes still hold. */
    method SaveLike(row: LikeRow) returns (r: Result<nat, set<LikeModel.LikeError>>)
      requires Valid()
      requires row.userId.Some? ==> row.userId.value in users
      modifies this
      ensures Valid()
      ensures r.Ok? <==> LikeModel.Errors(old(likes), row) == {} && row.postId in old(posts)
      ensures r.Ok? <==> (row.postId in old(posts) && !BlankString(row.ipAddress) &&
                          LikeIndexesHold(old(likes) + [row]))
      ensures r.Ok? ==> (
        r.value == |old(likes)| && likes == old(likes) + [row] &&
        row.postId in old(posts) &&
        posts == Recount(old(posts), row.postId, 1))
      ensures r.Err? ==> likes == old(likes) && posts == old(posts)
      ensures users == old(users) && comments == old(comments)
      ensures nextPostId == old(nextPostId) && nextUserId == old(nextUserId)
    {
      LikeModel.ErrorsMatchIndexes(likes, row);
      var errs := LikeModel.Errors(likes, row) +
        (if row.postId in posts then {} else {LikeModel.PostMissing});
      if errs != {} {
        return Err(errs);
      }
      AppendLikeKeeps(posts, likes, users, comments, nextPostId, nextUserId, row);
      var index := |likes|;
      likes := likes + [row];
      posts := Recount(posts, row.postId, 1);
      r := Ok(index);
    }

    /** `Like#destroy` of row `i`: the row is removed and its post's
        `likes_count` goes down by one. */
    method DestroyLike(i: nat)
      requires Valid() && i < |likes|
      modifies this
      ensures Valid()
      ensures likes == LikeModel.RemoveAt(old(likes), i)
      ensures old(likes[i].postId) in old(posts)
      ensures posts == Recount(old(posts), old(likes[i].postId), -1)
      ensures users == old(users) && comments == old(comments)
      ensures nextPostId == old(nextPostId) && nextUserId == old(nextUserId)
    {
      RemoveLikeKeeps(posts, likes, users, comments, nextPostId, nextUserId, i);
      var post := likes[i].postId;
      likes := LikeModel.RemoveAt(likes, i);
      posts := Recount(posts, post, -1);
    }

    /** `User#destroy`: the user's comments are destroyed and the user's
        likes lose their user (`dependent: :nullify`), all in one
        transaction. When a nullified like would collide with an anonymous
        like of the same post from the same address, the partial unique index
        refuses the update and the whole transaction rolls back. */
    method DestroyUser(u: UserId) returns (ok: bool)
      requires Valid() && u in users
      modifies this
      ensures Valid()
      ensures ok <==> !LikeModel.NullifyCollides(old(likes), u)
      ensures ok <==> LikeIndexesHold(LikeModel.Nullify(old(likes), u))
      ensures ok ==> (
        users == old(users) - {u} &&
        likes == LikeModel.Nullify(old(likes), u) &&
        comments == CommentsWithoutUser(old(comments), u))
      ensures !ok ==> users == old(users) && likes == old(likes) && comments == old(comments)
      ensures posts == old(posts)
      ensures nextPostId == old(nextPostId) && nextUserId == old(nextUserId)
    {
      LikeModel.NullifyKeepsIndexesIff(likes, u);
      if LikeModel.NullifyCollides(likes, u) {
        return false;
      }
      DeleteUserKeeps(posts, likes, users, comments, nextPostId, nextUserId, u);
      comments := CommentsWithoutUser(comments, u);
      likes := LikeModel.Nullify(likes, u);
      users := users - {u};
      ok := true;
    }

    /** `User.find_or_create_from_github`: find the user by GitHub id or
        start a new one, then `update!` the login, name and avatar. The save
        fails (the `RecordInvalid` the bang method raises) when the id or
        the login is blank or the login belongs to another GitHub account. */
    method FindOrCreateFromGithub(auth: UserModel.Auth)
      returns (r: Result<UserId, set<UserModel.UserError>>)
      requires Valid()
      modifies this
      ensures Valid()
      ensures r.Ok? <==> (
        !BlankString(auth.uid) && Present(auth.nickname) &&
        forall v :: v in old(users) && old(users)[v].githubLogin == auth.nickname ==>
          old(users)[v].githubId == Some(auth.uid))
      ensures r.Ok? ==> (
        users == old(users)[r.value := UserRow(Some(auth.uid), auth.nickname, auth.name, auth.image)] &&
        (r.value in old(users) <==>
          exists v :: v in old(users) && old(users)[v].githubId == Some(auth.uid)) &&
        (r.value in old(users) ==> old(users)[r.value].githubId == Some(auth.uid)) &&
        nextUserId == if r.value in old(users) then old(nextUserId) else old(nextUserId) + 1)
      ensures r.Ok? && r.value !in old(users) ==> r.value == old(nextUserId)
      ensures r.Err? ==> users == old(users) && nextUserId == old(nextUserId)
      ensures posts == old(posts) && likes == old(likes) && comments == old(comments)
      ensures nextPostId == old(nextPostId)
    {
      var id: UserId;
      var row: UserRow;
      if exists v :: v in users && users[v].githubId == Some(auth.uid) {
        id :| id in users && users[id].githubId == Some(auth.uid);
        row := users[id];
      } else {
        id := nextUserId;
        row := UserRow(Some(auth.uid), None, None, None);
      }
      row := UserModel.WithProfile(row, auth);
      // The record's own id: for a new record it is not yet in the table,
      // so excluding it from the uniqueness checks excludes nothing.
      var errs := UserModel.UserErrors(users, Some(id), row);
      if errs != {} {
        return Err(errs);
      }
      WriteUserKeeps(posts, likes, users, comments, nextPostId, nextUserId, id, row);
      users := users[id := row];
      if id == nextUserId {
        nextUserId := nextUserId + 1;
      }
      r := Ok(id);
    }
  }

  /** Signing in twice with the same GitHub profile: the second sign-in finds
      the account the first one created or updated and changes nothing. */
  method SignInTwice(db: Db, auth: UserModel.Auth)
    returns (first: Result<UserId, set<UserModel.UserError>>,
             second: Result<UserId, set<UserModel.UserError>>)
    requires db.Valid()
    modifies db
    ensures db.Valid()
    ensures first.Ok? ==> second == first
    ensures first.Ok? ==>
      db.users == old(db.users)[first.value := UserRow(Some(auth.uid), auth.nickname, auth.name, auth.image)] &&
      db.nextUserId == if first.value in old(db.users) then old(db.nextUserId) else old(db.nextUserId) + 1
    ensures db.posts == old(db.posts) && db.likes == old(db.likes) && db.comments == old(db.comments)
    ensures db.nextPostId == old(db.nextPostId)
  {
    first := db.FindOrCreateFromGithub(auth);
    ghost var afterFirst := db.users;
    ghost var nextAfterFirst := db.nextUserId;
    second := db.FindOrCreateFromGithub(auth);
    if first.Ok? {
      assert afterFirst[first.value].githubId == Some(auth.uid);
      assert second.Ok?;
      assert db.users == afterFirst;
      assert db.nextUserId == nextAfterFirst;
    }
  }
}
