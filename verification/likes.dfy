/**
 The like registry: `LikeViewSet.create` and `LikeViewSet.delete_like`
 (blog/views.py), the `unique_like` constraint on `Like` (blog/models.py) and
 `PostSerializer.get_likes_count` (blog/serializers.py).
 */
module Likes {
  import opened Store
  import Notifications

  /** The 400 body of a repeated like ("you have already liked this post"). */
  const AlreadyLiked: string := "Вы уже лайкали этот пост"

  /** `obj.like_set.count()`: the number of likes on post `p`. */
  function LikesCount(s: Store, p: PostId): (n: nat)
    ensures n == 0 <==> forall l :: l in s.likes ==> l.1 != p
    ensures n <= |s.likes|
  {
    var on := set l | l in s.likes && l.1 == p;
    assert s.likes == on + (s.likes - on) && on * (s.likes - on) == {};
    |on|
  }

  /** The users who like post `p`. */
  function Likers(s: Store, p: PostId): set<UserId> {
    set l | l in s.likes && l.1 == p :: l.0
  }

  /** Each like of a post belongs to a different user, so the count is the number of likers. */
  lemma LikesCountIsLikers(s: Store, p: PostId)
    ensures LikesCount(s, p) == |Likers(s, p)|
  {
    var ls := set l | l in s.likes && l.1 == p;
    assert Likers(s, p) == set l | l in ls :: l.0;
    UsersOfOnePost(ls, p);
  }

  lemma {:induction false} UsersOfOnePost(ls: set<(UserId, PostId)>, p: PostId)
    requires forall l :: l in ls ==> l.1 == p
    ensures |set l | l in ls :: l.0| == |ls|
    decreases ls
  {
    if ls != {} {
      var l :| l in ls;
      UsersOfOnePost(ls - {l}, p);
      var rest := set m | m in ls - {l} :: m.0;
      assert (set m | m in ls :: m.0) == rest + {l.0};
      assert l.0 !in rest;
    }
  }

  /**
   `create`: 401 for an anonymous requester, 404 for a missing post, 400
   "already liked" for a repeated like; otherwise the pair is added, the
   notification task runs once, and the answer is 201 with the post id.
   */
  function Like(s: Store, requester: Option<UserId>, postId: PostId): (r: Reply<PostId>)
    ensures !Authenticated(s, requester) ==> r == Reply(Unauthorized, None, s)
    ensures Authenticated(s, requester) && postId !in s.posts ==> r == Reply(NotFound, None, s)
    ensures Authenticated(s, requester) && postId in s.posts && (requester.value, postId) in s.likes ==>
              r == Reply(BadRequest(AlreadyLiked), None, s)
    ensures r.status == Created <==>
              Authenticated(s, requester) && postId in s.posts && (requester.value, postId) !in s.likes
    ensures r.status == Created ==>
              && r.body == Some(postId)
              && r.store.likes == s.likes + {(requester.value, postId)}
              && Notifications.SendLikeNotification(s, postId, requester.value) == Success(r.store.(likes := s.likes))
  {
    if !Authenticated(s, requester) then Reply(Unauthorized, None, s)
    else if postId !in s.posts then Reply(NotFound, None, s)
    else
      var u := requester.value;
      if (u, postId) in s.likes then Reply(BadRequest(AlreadyLiked), None, s)
      else
        var liked := s.(likes := s.likes + {(u, postId)});
        match Notifications.SendLikeNotification(liked, postId, u)
        case Success(s') => Reply(Created, Some(postId), s')
        case Failure(_) => Reply(ServerError, None, liked)
  }

  /** A first like adds one to the post's count; any other answer leaves every count as it was. */
  lemma LikeCountsOnce(s: Store, requester: Option<UserId>, postId: PostId, p: PostId)
    ensures var r := Like(s, requester, postId);
            LikesCount(r.store, p) == LikesCount(s, p) + (if r.status == Created && p == postId then 1 else 0)
  {
    var r := Like(s, requester, postId);
    if r.status == Created {
      var l := (requester.value, postId);
      var before := set m | m in s.likes && m.1 == p;
      var after := set m | m in r.store.likes && m.1 == p;
      if p == postId {
        assert after == before + {l};
      } else {
        assert after == before;
      }
    }
  }

  /** A repeated like is refused before anything is written: no like and no notification. */
  lemma DuplicateLikeHasNoEffect(s: Store, u: UserId, postId: PostId)
    requires u in s.users && postId in s.posts && (u, postId) in s.likes
    ensures var r := Like(s, Some(u), postId);
            r.status.Code() == 400 && r.store == s
  {
  }

  /**
   Liking on behalf of an authenticated user never runs into the notification task's
   missing-user error, so a like never answers 500.
   */
  lemma LikeNeverFails(s: Store, requester: Option<UserId>, postId: PostId)
    ensures Like(s, requester, postId).status != ServerError
  {
  }

  /**
   `delete_like`: 401 for an anonymous requester, 404 when the requester has
   no like on the post; otherwise exactly that like is removed and the answer is 204.
   */
  function Unlike(s: Store, requester: Option<UserId>, postId: PostId): (r: Reply<PostId>)
    ensures !Authenticated(s, requester) ==> r == Reply(Unauthorized, None, s)
    ensures Authenticated(s, requester) && (requester.value, postId) !in s.likes ==> r == Reply(NotFound, None, s)
    ensures r.status == NoContent <==> Authenticated(s, requester) && (requester.value, postId) in s.likes
    ensures r.status == NoContent ==>
              && r.store.(likes := s.likes) == s
              && (requester.value, postId) !in r.store.likes
              && r.store.likes + {(requester.value, postId)} == s.likes
  {
    if !Authenticated(s, requester) then Reply(Unauthorized, None, s)
    else
      var l := (requester.value, postId);
      if l !in s.likes then Reply(NotFound, None, s)
      else Reply(NoContent, None, s.(likes := s.likes - {l}))
  }

  /** Unliking takes one off the post's count exactly when it answers 204. */
  lemma UnlikeCountsOnce(s: Store, requester: Option<UserId>, postId: PostId)
    ensures var r := Unlike(s, requester, postId);
            LikesCount(r.store, postId) + (if r.status == NoContent then 1 else 0) == LikesCount(s, postId)
  {
    var r := Unlike(s, requester, postId);
    if r.status == NoContent {
      var l := (requester.value, postId);
      var before := set m | m in s.likes && m.1 == postId;
      var after := set m | m in r.store.likes && m.1 == postId;
      assert before == after + {l};
    }
  }

  /** Unliking right after a first like restores the like set (the notification stays). */
  lemma LikeThenUnlike(s: Store, requester: Option<UserId>, postId: PostId)
    requires Like(s, requester, postId).status == Created
    ensures var liked := Like(s, requester, postId).store;
            var r := Unlike(liked, requester, postId);
            r.status == NoContent && r.store.likes == s.likes
  {
  }

  lemma LikeKeepsValid(s: Store, requester: Option<UserId>, postId: PostId)
    requires Valid(s)
    ensures Valid(Like(s, requester, postId).store)
  {
    var r := Like(s, requester, postId);
    if r.status == Created {
      var liked := s.(likes := s.likes + {(requester.value, postId)});
      assert Valid(liked);
      Notifications.SendLikeNotificationKeepsValid(liked, postId, requester.value);
    }
  }

  lemma UnlikeKeepsValid(s: Store, requester: Option<UserId>, postId: PostId)
    requires Valid(s)
    ensures Valid(Unlike(s, requester, postId).store)
  {
  }
}
