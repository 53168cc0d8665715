/**
 * The rows of the blog's relational store and the constraints its schema
 * declares: not-null columns, defaults, unique and partial-unique indexes and
 * foreign keys. Nullable string columns are `Option<string>`.
 */
module Schema {
  import opened Common

  type PostId = nat
  type UserId = nat

  /** A row of `posts`. `published` and `likesCount` are the not-null columns. */
  datatype PostRow = PostRow(
    title: Option<string>,
    slug: Option<string>,
    content: Option<string>,
    excerpt: Option<string>,
    published: bool,
    likesCount: int)

  /** The `counter_cache` update of `Like belongs_to :post`: post `p`'s
      `likes_count` moved by `delta`, every other row as it was. */
  function Recount(posts: map<PostId, PostRow>, p: PostId, delta: int): map<PostId, PostRow>
    requires p in posts
  {
    posts[p := posts[p].(likesCount := posts[p].likesCount + delta)]
  }

  /** A row of `likes`: `post_id` and `ip_address` are not null, `user_id` may be. */
  datatype LikeRow = LikeRow(postId: PostId, userId: Option<UserId>, ipAddress: string)

  /** A row of `users`. */
  datatype UserRow = UserRow(
    githubId: Option<string>,
    githubLogin: Option<string>,
    name: Option<string>,
    avatarUrl: Option<string>)

  /** A row of `comments`: both references are not null. */
  datatype CommentRow = CommentRow(postId: PostId, userId: UserId, content: Option<string>)

  /** A new `posts` row before any attribute is assigned: every nullable
      column is nil, `published` defaults to false and `likes_count` to 0. */
  function NewPostRow(): (p: PostRow)
    ensures !p.published && p.likesCount == 0
    ensures p.title.None? && p.slug.None? && p.content.None? && p.excerpt.None?
  {
    PostRow(None, None, None, None, false, 0)
  }

  /** `index_posts_on_slug` (unique): no two posts share a non-null slug. */
  ghost predicate SlugIndexHolds(posts: map<PostId, PostRow>)
  {
    forall p, q :: p in posts && q in posts && p != q && posts[p].slug.Some? ==>
      posts[p].slug != posts[q].slug
  }

  /** Two like rows collide on one of the two partial unique indexes:
      `(post_id, user_id) WHERE user_id IS NOT NULL` or
      `(post_id, ip_address) WHERE user_id IS NULL`. */
  predicate SameLikeKey(a: LikeRow, b: LikeRow)
  {
    a.postId == b.postId &&
    ((a.userId.Some? && a.userId == b.userId) ||
     (a.userId.None? && b.userId.None? && a.ipAddress == b.ipAddress))
  }

  /** Both partial unique indexes on `likes` hold. */
  ghost predicate LikeIndexesHold(likes: seq<LikeRow>)
  {
    forall i, j :: 0 <= i < |likes| && 0 <= j < |likes| && i != j ==>
      !SameLikeKey(likes[i], likes[j])
  }

  /** `index_users_on_github_id` and `index_users_on_github_login` (both unique). */
  ghost predicate UserIndexesHold(users: map<UserId, UserRow>)
  {
    forall u, v :: u in users && v in users && u != v ==>
      (users[u].githubId.Some? ==> users[u].githubId != users[v].githubId) &&
      (users[u].githubLogin.Some? ==> users[u].githubLogin != users[v].githubLogin)
  }

  /** The foreign keys of `likes` and `comments`. */
  ghost predicate ForeignKeysHold(posts: map<PostId, PostRow>, users: map<UserId, UserRow>,
                                  likes: seq<LikeRow>, comments: seq<CommentRow>)
  {
    (forall i :: 0 <= i < |likes| ==>
      likes[i].postId in posts && (likes[i].userId.Some? ==> likes[i].userId.value in users)) &&
    (forall i :: 0 <= i < |comments| ==>
      comments[i].postId in posts && comments[i].userId in users)
  }
}
