/**
 * The like model: its validations, the `by_ip` scope, and the counting that
 * the `counter_cache` keeps in `posts.likes_count`.
 */
module LikeModel {
  import opened Common
  import opened Schema

  // ---------------------------------------------------------------------
  // Counting rows per post (the quantity `counter_cache` caches)
  // ---------------------------------------------------------------------

  /** The number of like rows that reference `post`. */
  function Count(likes: seq<LikeRow>, post: PostId): (n: nat)
    ensures n <= |likes|
  {
    if likes == [] then 0
    else Count(likes[..|likes| - 1], post) + (if likes[|likes| - 1].postId == post then 1 else 0)
  }

  /** Counting distributes over concatenation. */
  lemma {:induction false} CountConcat(a: seq<LikeRow>, b: seq<LikeRow>, post: PostId)
    ensures Count(a + b, post) == Count(a, post) + Count(b, post)
    decreases |b|
  {
    if b == [] {
      assert a + b == a;
    } else {
      assert (a + b)[..|a + b| - 1] == a + b[..|b| - 1];
      CountConcat(a, b[..|b| - 1], post);
    }
  }

  /** The row list without row `i`: what `Like#destroy` leaves. */
  function RemoveAt(likes: seq<LikeRow>, i: nat): (r: seq<LikeRow>)
    requires i < |likes|
    ensures |r| == |likes| - 1
    ensures forall j :: 0 <= j < i ==> r[j] == likes[j]
    ensures forall j :: i <= j < |r| ==> r[j] == likes[j + 1]
  {
    likes[..i] + likes[i + 1..]
  }

  /** Removing one row lowers the count of its post by one and leaves every
      other post's count alone. */
  lemma CountRemoveAt(likes: seq<LikeRow>, i: nat, post: PostId)
    requires i < |likes|
    ensures Count(RemoveAt(likes, i), post) ==
      Count(likes, post) - (if likes[i].postId == post then 1 else 0)
  {
    assert likes == likes[..i] + [likes[i]] + likes[i + 1..];
    CountConcat(likes[..i] + [likes[i]], likes[i + 1..], post);
    CountConcat(likes[..i], [likes[i]], post);
    CountConcat(likes[..i], likes[i + 1..], post);
    assert Count([likes[i]], post) == Count([], post) + (if likes[i].postId == post then 1 else 0) by {
      assert [likes[i]][..0] == [];
    }
  }

  /** The rows of every post but `gone`: what the `dependent: :destroy`
      cascade of a post leaves in `likes`. */
  function WithoutPost(likes: seq<LikeRow>, gone: PostId): (r: seq<LikeRow>)
    ensures forall x :: x in r <==> x in likes && x.postId != gone
  {
    Filter(likes, (l: LikeRow) => l.postId != gone)
  }

  /** Dropping every row of one post zeroes that post's count and keeps
      every other post's. */
  lemma {:induction false} CountWithoutPost(likes: seq<LikeRow>, gone: PostId, post: PostId)
    ensures Count(WithoutPost(likes, gone), post) == if post == gone then 0 else Count(likes, post)
    decreases |likes|
  {
    if likes != [] {
      var init := likes[..|likes| - 1];
      CountWithoutPost(init, gone, post);
      var last := likes[|likes| - 1];
      var kept := if last.postId != gone then [last] else [];
      CountConcat(WithoutPost(init, gone), kept, post);
      assert kept != [] ==> kept[..0] == [];
    }
  }

  /** `dependent: :nullify` on a user's likes: every row of `user` loses its
      user reference and keeps its post and IP address. */
  function Nullify(likes: seq<LikeRow>, user: UserId): (r: seq<LikeRow>)
    ensures |r| == |likes|
    ensures forall i :: 0 <= i < |likes| ==>
      r[i] == if likes[i].userId == Some(user) then likes[i].(userId := None) else likes[i]
  {
    if likes == [] then []
    else
      var last := likes[|likes| - 1];
      Nullify(likes[..|likes| - 1], user) +
        [if last.userId == Some(user) then last.(userId := None) else last]
  }

  /** Nullifying user references changes no post's count. */
  lemma {:induction false} CountNullify(likes: seq<LikeRow>, user: UserId, post: PostId)
    ensures Count(Nullify(likes, user), post) == Count(likes, post)
    decreases |likes|
  {
    if likes != [] {
      var r := Nullify(likes, user);
      assert r[..|r| - 1] == Nullify(likes[..|likes| - 1], user);
      CountNullify(likes[..|likes| - 1], user, post);
    }
  }

  /** A post that no row references has a count of zero. */
  lemma {:induction false} CountAbsent(likes: seq<LikeRow>, post: PostId)
    requires forall i :: 0 <= i < |likes| ==> likes[i].postId != post
    ensures Count(likes, post) == 0
    decreases |likes|
  {
    if likes != [] {
      CountAbsent(likes[..|likes| - 1], post);
    }
  }

  /** The rows of `likes` that reference `post`, by position. */
  ghost function RowsOf(likes: seq<LikeRow>, post: PostId): set<nat>
  {
    set i: nat | i < |likes| && likes[i].postId == post
  }

  /** The count is the number of rows that reference the post, which is what
      `likes_count` caches. */
  lemma {:induction false} CountIsRowsOf(likes: seq<LikeRow>, post: PostId)
    ensures Count(likes, post) == |RowsOf(likes, post)|
    decreases |likes|
  {
    if likes != [] {
      var init := likes[..|likes| - 1];
      CountIsRowsOf(init, post);
      var last := |likes| - 1;
      if likes[last].postId == post {
        assert RowsOf(likes, post) == RowsOf(init, post) + {last};
      } else {
        assert RowsOf(likes, post) == RowsOf(init, post);
      }
    }
  }

  // ---------------------------------------------------------------------
  // The partial unique indexes under deletion and nullification
  // ---------------------------------------------------------------------

  /** Keeping a subset of the rows, in order, keeps both indexes. */
  lemma {:induction false} FilterKeepsIndexes(likes: seq<LikeRow>, keep: LikeRow -> bool)
    requires LikeIndexesHold(likes)
    ensures LikeIndexesHold(Filter(likes, keep))
    decreases |likes|
  {
    if likes != [] {
      var init := likes[..|likes| - 1];
      var last := likes[|likes| - 1];
      assert forall i :: 0 <= i < |init| ==> init[i] == likes[i];
      FilterKeepsIndexes(init, keep);
      var front := Filter(init, keep);
      var r := front + (if keep(last) then [last] else []);
      forall i, j | 0 <= i < |r| && 0 <= j < |r| && i != j
        ensures !SameLikeKey(r[i], r[j])
      {
        if i < |front| && j < |front| {
          assert r[i] == front[i] && r[j] == front[j];
        } else if i < |front| {
          assert r[i] in init;
          var k :| 0 <= k < |init| && init[k] == r[i];
          assert likes[k] == r[i] && likes[|likes| - 1] == r[j];
        } else {
          assert r[j] in init;
          var k :| 0 <= k < |init| && init[k] == r[j];
          assert likes[k] == r[j] && likes[|likes| - 1] == r[i];
        }
      }
    }
  }

  /** Deleting one row keeps both indexes. */
  lemma RemoveAtKeepsIndexes(likes: seq<LikeRow>, i: nat)
    requires i < |likes| && LikeIndexesHold(likes)
    ensures LikeIndexesHold(RemoveAt(likes, i))
  {
    var r := RemoveAt(likes, i);
    forall a, b | 0 <= a < |r| && 0 <= b < |r| && a != b
      ensures !SameLikeKey(r[a], r[b])
    {
      var a' := if a < i then a else a + 1;
      var b' := if b < i then b else b + 1;
      assert r[a] == likes[a'] && r[b] == likes[b'];
    }
  }

  /** Nullifying `user`'s likes turns one of them into an anonymous like that
      collides with an anonymous like of the same post from the same address. */
  predicate NullifyCollides(likes: seq<LikeRow>, user: UserId)
  {
    exists i, j :: 0 <= i < |likes| && 0 <= j < |likes| &&
      likes[i].userId == Some(user) && likes[j].userId.None? &&
      likes[i].postId == likes[j].postId && likes[i].ipAddress == likes[j].ipAddress
  }

  /** The nullified table satisfies the indexes exactly when there is no such
      collision: otherwise the database refuses the update. */
  lemma NullifyKeepsIndexesIff(likes: seq<LikeRow>, user: UserId)
    requires LikeIndexesHold(likes)
    ensures LikeIndexesHold(Nullify(likes, user)) <==> !NullifyCollides(likes, user)
  {
    var n := Nullify(likes, user);
    if NullifyCollides(likes, user) {
      var i, j :| 0 <= i < |likes| && 0 <= j < |likes| &&
        likes[i].userId == Some(user) && likes[j].userId.None? &&
        likes[i].postId == likes[j].postId && likes[i].ipAddress == likes[j].ipAddress;
      assert SameLikeKey(n[i], n[j]);
    } else {
      forall a, b | 0 <= a < |n| && 0 <= b < |n| && a != b
        ensures !SameLikeKey(n[a], n[b])
      {
        assert !SameLikeKey(likes[a], likes[b]);
      }
    }
  }

  // ---------------------------------------------------------------------
  // Validations
  // ---------------------------------------------------------------------

  datatype LikeError = IpBlank | UserTaken | IpTaken | PostMissing

  /** Some like of `post` belongs to `user`. */
  predicate HasUserLike(likes: seq<LikeRow>, post: PostId, user: UserId)
  {
    exists i :: 0 <= i < |likes| && likes[i].postId == post && likes[i].userId == Some(user)
  }

  /** Some like of `post`, with or without a user, came from `ip`. */
  predicate HasIpLike(likes: seq<LikeRow>, post: PostId, ip: string)
  {
    exists i :: 0 <= i < |likes| && likes[i].postId == post && likes[i].ipAddress == ip
  }

  /** Some like of `post` without a user came from `ip`. */
  predicate HasAnonymousIpLike(likes: seq<LikeRow>, post: PostId, ip: string)
  {
    exists i :: 0 <= i < |likes| && likes[i].postId == post && likes[i].userId.None? &&
      likes[i].ipAddress == ip
  }

  /** The validations as written: `ip_address` present; `user_id` unique per
      post when present; when `user_id` is nil, `ip_address` unique per post
      among ALL likes of the post, including likes owned by a user. */
  function ErrorsAsWritten(likes: seq<LikeRow>, row: LikeRow): (errs: set<LikeError>)
    ensures IpBlank in errs <==> BlankString(row.ipAddress)
    ensures UserTaken in errs ==> row.userId.Some?
    ensures IpTaken in errs ==> row.userId.None?
    ensures errs == {} ==> forall i :: 0 <= i < |likes| ==> !SameLikeKey(likes[i], row)
  {
    (if BlankString(row.ipAddress) then {IpBlank} else {}) +
    (if row.userId.Some? && HasUserLike(likes, row.postId, row.userId.value)
     then {UserTaken} else {}) +
    (if row.userId.None? && HasIpLike(likes, row.postId, row.ipAddress)
     then {IpTaken} else {})
  }

  /** The validations with the anonymous IP rule scoped to likes that have no
      user, as the partial unique index and the lookup rule intend. */
  function Errors(likes: seq<LikeRow>, row: LikeRow): (errs: set<LikeError>)
    ensures IpBlank in errs <==> BlankString(row.ipAddress)
    ensures UserTaken in errs ==> row.userId.Some?
    ensures IpTaken in errs ==> row.userId.None?
    ensures errs == {} <==>
      !BlankString(row.ipAddress) && forall i :: 0 <= i < |likes| ==> !SameLikeKey(likes[i], row)
  {
    (if BlankString(row.ipAddress) then {IpBlank} else {}) +
    (if row.userId.Some? && HasUserLike(likes, row.postId, row.userId.value)
     then {UserTaken} else {}) +
    (if row.userId.None? && HasAnonymousIpLike(likes, row.postId, row.ipAddress)
     then {IpTaken} else {})
  }

  /** A user's second like of a post is rejected whatever its address. */
  lemma SecondUserLikeRejected(likes: seq<LikeRow>, row: LikeRow, earlier: nat)
    requires earlier < |likes| && row.userId.Some?
    requires likes[earlier].postId == row.postId && likes[earlier].userId == row.userId
    ensures UserTaken in ErrorsAsWritten(likes, row) && UserTaken in Errors(likes, row)
  {
    assert HasUserLike(likes, row.postId, row.userId.value);
  }

  /** The anonymous address rule never applies to a like that has a user:
      such a like is never refused for its address, and moving it to another
      address that is equally blank or present changes none of its errors. */
  lemma AddressRuleSkipsUserLikes(likes: seq<LikeRow>, row: LikeRow, otherIp: string)
    requires row.userId.Some?
    ensures IpTaken !in ErrorsAsWritten(likes, row) && IpTaken !in Errors(likes, row)
    ensures BlankString(otherIp) == BlankString(row.ipAddress) ==>
      ErrorsAsWritten(likes, row.(ipAddress := otherIp)) == ErrorsAsWritten(likes, row) &&
      Errors(likes, row.(ipAddress := otherIp)) == Errors(likes, row)
  {
  }

  /** Between anonymous likes, the address rule is scoped to the post: the
      same address on the same post is rejected, while another address on
      that post, or the same address on another post, is accepted. */
  lemma AnonymousIpRuleScope(ip: string, otherIp: string, post: PostId, otherPost: PostId)
    requires !BlankString(ip) && !BlankString(otherIp) && ip != otherIp && post != otherPost
    ensures var likes := [LikeRow(post, None, ip)];
      IpTaken in ErrorsAsWritten(likes, LikeRow(post, None, ip)) &&
      ErrorsAsWritten(likes, LikeRow(post, None, otherIp)) == {} &&
      ErrorsAsWritten(likes, LikeRow(otherPost, None, ip)) == {}
  {
    var likes := [LikeRow(post, None, ip)];
    assert HasIpLike(likes, post, ip) by {
      assert likes[0].postId == post && likes[0].ipAddress == ip;
    }
  }

  /** The corrected validations accept a row exactly when its IP address is
      present and the partial unique indexes still hold with it appended. */
  lemma ErrorsMatchIndexes(likes: seq<LikeRow>, row: LikeRow)
    requires LikeIndexesHold(likes)
    ensures Errors(likes, row) == {} <==> !BlankString(row.ipAddress) && LikeIndexesHold(likes + [row])
  {
    var all := likes + [row];
    if LikeIndexesHold(all) && row.userId.Some? {
      forall i | 0 <= i < |likes| && likes[i].postId == row.postId
        ensures likes[i].userId != row.userId
      {
        assert !SameLikeKey(all[|likes|], all[i]);
      }
    }
    if LikeIndexesHold(all) && row.userId.None? {
      forall i | 0 <= i < |likes| && likes[i].postId == row.postId && likes[i].userId.None?
        ensures likes[i].ipAddress != row.ipAddress
      {
        assert !SameLikeKey(all[|likes|], all[i]);
      }
    }
  }

  /** The validation as written rejects an anonymous like that the indexes
      would accept: a logged-in user's like from the same address on the same
      post blocks every anonymous visitor behind that address. */
  lemma AnonymousLikeRejectedAsWritten()
    ensures var likes := [LikeRow(1, Some(7), "203.0.113.5")];
      var row := LikeRow(1, None, "203.0.113.5");
      IpTaken in ErrorsAsWritten(likes, row) &&
      Errors(likes, row) == {} &&
      LikeIndexesHold(likes + [row])
  {
    var likes := [LikeRow(1, Some(7), "203.0.113.5")];
    var row := LikeRow(1, None, "203.0.113.5");
    assert likes[0].postId == row.postId && likes[0].ipAddress == row.ipAddress;
    assert !BlankString(row.ipAddress) by { assert !IsSpace(row.ipAddress[0]); }
    ErrorsMatchIndexes(likes, row);
  }

  /** Whenever the corrected validations reject a row, so do the ones as
      written: the correction only admits rows, and only anonymous ones. */
  lemma CorrectionOnlyAdmitsAnonymous(likes: seq<LikeRow>, row: LikeRow)
    ensures Errors(likes, row) <= ErrorsAsWritten(likes, row)
    ensures row.userId.Some? ==> Errors(likes, row) == ErrorsAsWritten(likes, row)
  {
  }

  // ---------------------------------------------------------------------
  // Scope
  // ---------------------------------------------------------------------

  /** `Like.by_ip(ip)`: the likes recorded from `ip`, in table order. */
  function ByIp(likes: seq<LikeRow>, ip: string): (r: seq<LikeRow>)
    ensures forall x :: x in r <==> x in likes && x.ipAddress == ip
  {
    Filter(likes, (l: LikeRow) => l.ipAddress == ip)
  }
}
