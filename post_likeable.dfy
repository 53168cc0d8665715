/**
 * How a request is matched to its like on a post: by the logged-in user
 * alone, or, for an anonymous visitor, by the remote IP address together
 * with a missing user. `find_user_like` and `user_liked?` share the rule.
 */
module PostLikeable {
  import opened Common
  import opened Schema
  import opened LikeModel

  /** The identity-matching rule of both lookups. */
  predicate Matches(like: LikeRow, post: PostId, currentUser: Option<UserId>, remoteIp: string)
    ensures Matches(like, post, currentUser, remoteIp) ==> like.postId == post
    ensures Matches(like, post, currentUser, remoteIp) && like.userId.Some? ==> like.userId == currentUser
    ensures Matches(like, post, currentUser, remoteIp) && currentUser.None? ==> like.ipAddress == remoteIp
  {
    like.postId == post &&
    match currentUser
    case Some(u) => like.userId == Some(u)
    case None => like.ipAddress == remoteIp && like.userId.None?
  }

  /** `find_user_like`: the index of the first like of `post` that matches the
      caller, or None. */
  function FindUserLike(likes: seq<LikeRow>, post: PostId, currentUser: Option<UserId>,
                        remoteIp: string): (r: Option<nat>)
    ensures r.Some? ==> r.value < |likes| && Matches(likes[r.value], post, currentUser, remoteIp)
    ensures r.Some? ==> forall j :: 0 <= j < r.value ==> !Matches(likes[j], post, currentUser, remoteIp)
    ensures r.None? ==> forall j :: 0 <= j < |likes| ==> !Matches(likes[j], post, currentUser, remoteIp)
  {
    if likes == [] then None
    else if Matches(likes[0], post, currentUser, remoteIp) then Some(0)
    else match FindUserLike(likes[1..], post, currentUser, remoteIp)
      case None => None
      case Some(i) => Some(i + 1)
  }

  /** `user_liked?`: whether some like of `post` matches the caller. */
  function UserLiked(likes: seq<LikeRow>, post: PostId, currentUser: Option<UserId>,
                     remoteIp: string): (b: bool)
    ensures b <==> exists i :: 0 <= i < |likes| && Matches(likes[i], post, currentUser, remoteIp)
  {
    if likes == [] then false
    else if Matches(likes[0], post, currentUser, remoteIp) then true
    else
      var b := UserLiked(likes[1..], post, currentUser, remoteIp);
      assert b ==> exists i :: 0 <= i < |likes| && Matches(likes[i], post, currentUser, remoteIp) by {
        if b {
          var i :| 0 <= i < |likes[1..]| && Matches(likes[1..][i], post, currentUser, remoteIp);
          assert likes[i + 1] == likes[1..][i];
        }
      }
      assert (exists i :: 0 <= i < |likes| && Matches(likes[i], post, currentUser, remoteIp)) ==> b by {
        if exists i :: 0 <= i < |likes| && Matches(likes[i], post, currentUser, remoteIp) {
          var i :| 0 <= i < |likes| && Matches(likes[i], post, currentUser, remoteIp);
          assert i != 0 && likes[1..][i - 1] == likes[i];
        }
      }
      b
  }

  /** The two lookups agree: `user_liked?` holds exactly when `find_user_like`
      finds a like. */
  lemma UserLikedIffFound(likes: seq<LikeRow>, post: PostId, currentUser: Option<UserId>, remoteIp: string)
    ensures UserLiked(likes, post, currentUser, remoteIp) <==>
      FindUserLike(likes, post, currentUser, remoteIp).Some?
  {
  }

  /** A logged-in caller's like is found by user alone: the remote IP plays no
      part, so the same user finds the same like from any address. */
  lemma {:induction false} LoggedInIgnoresIp(likes: seq<LikeRow>, post: PostId, user: UserId,
                                             ip1: string, ip2: string)
    ensures FindUserLike(likes, post, Some(user), ip1) == FindUserLike(likes, post, Some(user), ip2)
  {
    if likes != [] {
      LoggedInIgnoresIp(likes[1..], post, user, ip1, ip2);
    }
  }

  /** An anonymous caller never matches a like that has a user, even one
      recorded from the caller's own address. */
  lemma AnonymousNeverMatchesOwnedLike(likes: seq<LikeRow>, post: PostId, remoteIp: string)
    ensures var r := FindUserLike(likes, post, None, remoteIp);
      r.Some? ==> likes[r.value].userId.None? && likes[r.value].ipAddress == remoteIp
  {
  }

  /** The matching rule is the key of the partial unique indexes: a like
      matches the caller exactly when it collides with the row the caller
      would create. */
  lemma MatchesIsIndexKey(like: LikeRow, post: PostId, currentUser: Option<UserId>, remoteIp: string)
    ensures Matches(like, post, currentUser, remoteIp) <==>
      SameLikeKey(LikeRow(post, currentUser, remoteIp), like)
  {
  }

  /** Under the unique indexes at most one like matches a caller, so the like
      `find_user_like` returns does not depend on row order. */
  lemma MatchIsUnique(likes: seq<LikeRow>, post: PostId, currentUser: Option<UserId>,
                      remoteIp: string, i: nat, j: nat)
    requires LikeIndexesHold(likes)
    requires i < |likes| && j < |likes|
    requires Matches(likes[i], post, currentUser, remoteIp) && Matches(likes[j], post, currentUser, remoteIp)
    ensures i == j
  {
    if i != j {
      assert SameLikeKey(likes[i], likes[j]);
    }
  }

  /** With the corrected validations, saving the like a request would build is
      rejected exactly when its address is blank or the caller has already
      liked the post. */
  lemma SaveRejectedIffLiked(likes: seq<LikeRow>, post: PostId, currentUser: Option<UserId>,
                             remoteIp: string)
    ensures Errors(likes, LikeRow(post, currentUser, remoteIp)) != {} <==>
      BlankString(remoteIp) || UserLiked(likes, post, currentUser, remoteIp)
  {
    var row := LikeRow(post, currentUser, remoteIp);
    if currentUser.Some? && HasUserLike(likes, post, currentUser.value) {
      var i :| 0 <= i < |likes| && likes[i].postId == post && likes[i].userId == currentUser;
      assert Matches(likes[i], post, currentUser, remoteIp);
    }
    if currentUser.None? && HasAnonymousIpLike(likes, post, remoteIp) {
      var i :| 0 <= i < |likes| && likes[i].postId == post && likes[i].userId.None? &&
        likes[i].ipAddress == remoteIp;
      assert Matches(likes[i], post, currentUser, remoteIp);
    }
  }

  /** As written, an anonymous visitor behind the address of a logged-in
      user's like can neither like the post (the save is rejected) nor unlike
      it (no like matches). */
  lemma AnonymousVisitorLockedOutAsWritten()
    ensures var likes := [LikeRow(1, Some(7), "203.0.113.5")];
      ErrorsAsWritten(likes, LikeRow(1, None, "203.0.113.5")) != {} &&
      !UserLiked(likes, 1, None, "203.0.113.5") &&
      FindUserLike(likes, 1, None, "203.0.113.5").None?
  {
    AnonymousLikeRejectedAsWritten();
  }

  /** The like a request appends is matched by the same request's lookup. */
  lemma AppendedLikeIsLiked(likes: seq<LikeRow>, post: PostId, currentUser: Option<UserId>,
                            remoteIp: string)
    ensures UserLiked(likes + [LikeRow(post, currentUser, remoteIp)], post, currentUser, remoteIp)
  {
    var all := likes + [LikeRow(post, currentUser, remoteIp)];
    assert Matches(all[|likes|], post, currentUser, remoteIp);
  }

  /** Liking then unliking with one identity: after the created row is
      appended, the lookup finds exactly that row, and removing it gives back
      the original table. */
  lemma LikeThenUnlikeFindsNewRow(likes: seq<LikeRow>, post: PostId, currentUser: Option<UserId>,
                                  remoteIp: string)
    requires !UserLiked(likes, post, currentUser, remoteIp)
    ensures var all := likes + [LikeRow(post, currentUser, remoteIp)];
      FindUserLike(all, post, currentUser, remoteIp) == Some(|likes|) &&
      RemoveAt(all, |likes|) == likes
  {
    var all := likes + [LikeRow(post, currentUser, remoteIp)];
    assert Matches(all[|likes|], post, currentUser, remoteIp);
    assert forall j :: 0 <= j < |likes| ==> all[j] == likes[j];
    assert RemoveAt(all, |likes|) == all[..|likes|];
  }

  /** Under the unique indexes, deleting the like `find_user_like` returns
      leaves no like that matches the caller: one unlike undoes the like. */
  lemma UnlikeLeavesNoMatch(likes: seq<LikeRow>, post: PostId, currentUser: Option<UserId>,
                            remoteIp: string)
    requires LikeIndexesHold(likes)
    requires FindUserLike(likes, post, currentUser, remoteIp).Some?
    ensures !UserLiked(RemoveAt(likes, FindUserLike(likes, post, currentUser, remoteIp).value),
                       post, currentUser, remoteIp)
  {
    var i := FindUserLike(likes, post, currentUser, remoteIp).value;
    var r := RemoveAt(likes, i);
    forall k | 0 <= k < |r|
      ensures !Matches(r[k], post, currentUser, remoteIp)
    {
      var k' := if k < i then k else k + 1;
      assert r[k] == likes[k'];
      if Matches(likes[k'], post, currentUser, remoteIp) {
        MatchIsUnique(likes, post, currentUser, remoteIp, i, k');
      }
    }
  }
}
