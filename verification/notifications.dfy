/**
 Like notifications: the `send_like_notification` task (notifications/tasks.py)
 and the requester's notification inbox with its `mark_read` action
 (notifications/views.py).
 */
module Notifications {
  import opened Store

  /** The exception the notification task lets escape: the liker's `User.objects.get` failing. */
  datatype TaskError = UserDoesNotExist

  const ReadMessage: string := "Notification marked as read"

  /** The text a post's author receives when `liker` likes the post titled `title`. */
  function LikeMessage(liker: string, title: string): (m: string)
    ensures |m| == |liker| + |title| + 19
    ensures m[..|liker|] == liker && m[|liker|..|liker| + 18] == " liked your post \""
    ensures m[|liker| + 18..|m| - 1] == title && m[|m| - 1] == '"'
  {
    liker + " liked your post \"" + title + "\""
  }

  /** How many notifications in `ns` are addressed to `u`. */
  function CountFor(ns: seq<Notification>, u: UserId): nat {
    if ns == [] then 0 else (if ns[0].recipient == u then 1 else 0) + CountFor(ns[1..], u)
  }

  lemma {:induction false} CountForAppend(ns: seq<Notification>, more: seq<Notification>, u: UserId)
    ensures CountFor(ns + more, u) == CountFor(ns, u) + CountFor(more, u)
  {
    if ns == [] {
      assert ns + more == more;
    } else {
      assert (ns + more)[1..] == ns[1..] + more;
      CountForAppend(ns[1..], more, u);
    }
  }

  /**
   The task run after a first like: nothing when the post is gone or the liker
   is its author; a missing liker escapes as an error; otherwise one
   notification for the author is appended, unread, and nothing else changes.
   */
  function SendLikeNotification(s: Store, postId: PostId, likerId: UserId): (r: Result<Store, TaskError>)
    ensures postId !in s.posts ==> r == Success(s)
    ensures r.Failure? <==> postId in s.posts && likerId !in s.users
    ensures r.Success? ==> r.value.(notifications := s.notifications, clock := s.clock) == s
    ensures r.Success? && postId in s.posts && likerId == s.posts[postId].author ==> r.value == s
    ensures r.Success? && postId in s.posts && likerId != s.posts[postId].author ==>
              var post := s.posts[postId];
              && r.value.clock == s.clock + 1
              && r.value.notifications
                 == s.notifications + [Notification(s.clock, post.author, LikeMessage(s.users[likerId], post.title), false)]
  {
    if postId !in s.posts then Success(s)
    else if likerId !in s.users then Failure(UserDoesNotExist)
    else
      var post := s.posts[postId];
      if likerId == post.author then Success(s)
      else
        var n := Notification(s.clock, post.author, LikeMessage(s.users[likerId], post.title), false);
        Success(s.(notifications := s.notifications + [n], clock := s.clock + 1))
  }

  /**
   Who is told: the author of an existing post gains exactly one notification
   when someone else likes it, no user gains one on a self-like, and nobody
   else's inbox changes.
   */
  lemma NotifiesOnlyTheAuthor(s: Store, postId: PostId, likerId: UserId, u: UserId)
    requires postId in s.posts && likerId in s.users
    ensures var r := SendLikeNotification(s, postId, likerId);
            var author := s.posts[postId].author;
            && r.Success?
            && CountFor(r.value.notifications, u)
               == CountFor(s.notifications, u) + (if u == author && likerId != author then 1 else 0)
  {
    var r := SendLikeNotification(s, postId, likerId);
    var author := s.posts[postId].author;
    if likerId != author {
      var n := r.value.notifications[|s.notifications|];
      CountForAppend(s.notifications, [n], u);
      assert CountFor([n], u) == (if n.recipient == u then 1 else 0) + CountFor([], u);
    }
  }

  lemma SendLikeNotificationKeepsValid(s: Store, postId: PostId, likerId: UserId)
    requires Valid(s)
    ensures var r := SendLikeNotification(s, postId, likerId);
            r.Success? ==> Valid(r.value)
  {
  }

  /** The requester's notifications, newest first (`filter(user=...).order_by('-created_at')`). */
  function Inbox(ns: seq<Notification>, u: UserId): (r: seq<Notification>)
    ensures forall n :: n in r <==> n in ns && n.recipient == u
    ensures |r| == CountFor(ns, u)
  {
    if ns == [] then []
    else
      var rest := Inbox(ns[1..], u);
      assert forall n :: n in ns[1..] ==> n in ns;
      if ns[0].recipient == u then rest + [ns[0]] else rest
  }

  /** Ids strictly decrease along `r`: newest first. */
  predicate NewestFirst(r: seq<Notification>) {
    forall i, j :: 0 <= i < j < |r| ==> r[i].id > r[j].id
  }

  /** With ids increasing along the stored list, the inbox lists them strictly decreasing. */
  lemma {:induction false} InboxNewestFirst(ns: seq<Notification>, u: UserId)
    requires forall i, j :: 0 <= i < j < |ns| ==> ns[i].id < ns[j].id
    ensures NewestFirst(Inbox(ns, u))
  {
    if ns != [] {
      var tail := ns[1..];
      assert forall i, j :: 0 <= i < j < |tail| ==> tail[i].id < tail[j].id by {
        forall i, j | 0 <= i < j < |tail|
          ensures tail[i].id < tail[j].id
        {
          assert tail[i] == ns[i + 1] && tail[j] == ns[j + 1];
        }
      }
      InboxNewestFirst(tail, u);
      var rest := Inbox(tail, u);
      if ns[0].recipient == u {
        forall j | 0 <= j < |rest|
          ensures rest[j].id > ns[0].id
        {
          assert rest[j] in rest;
          var k :| 0 <= k < |tail| && tail[k] == rest[j];
          assert tail[k] == ns[k + 1];
        }
        var r := rest + [ns[0]];
        assert Inbox(ns, u) == r;
        forall i, j | 0 <= i < j < |r|
          ensures r[i].id > r[j].id
        {
          if j < |rest| {
            assert r[i] == rest[i] && r[j] == rest[j];
          } else {
            assert r[i] == rest[i] && r[j] == ns[0];
          }
        }
      } else {
        assert Inbox(ns, u) == rest;
      }
    }
  }

  function ListNotifications(s: Store, u: UserId): (r: seq<Notification>)
    ensures forall n :: n in r <==> n in s.notifications && n.recipient == u
  {
    Inbox(s.notifications, u)
  }

  /** The position of the notification `get_object` finds in `u`'s queryset, if any. */
  function FindOwned(ns: seq<Notification>, u: UserId, id: NotificationId, from: nat): (r: Option<nat>)
    requires from <= |ns|
    ensures r.Some? ==> from <= r.value < |ns| && ns[r.value].id == id && ns[r.value].recipient == u
    ensures r.None? ==> forall i :: from <= i < |ns| ==> !(ns[i].id == id && ns[i].recipient == u)
    decreases |ns| - from
  {
    if from == |ns| then None
    else if ns[from].id == id && ns[from].recipient == u then Some(from)
    else FindOwned(ns, u, id, from + 1)
  }

  /**
   `mark_read`: 404 unless notification `id` is one of `u`'s; otherwise its
   `is_read` becomes true and no other field or notification changes.
   */
  function MarkRead(s: Store, u: UserId, id: NotificationId): (r: Reply<string>)
    ensures r.status.OK? <==> exists i :: 0 <= i < |s.notifications| && s.notifications[i].id == id && s.notifications[i].recipient == u
    ensures r.status == OK || (r.status == NotFound && r.store == s)
    ensures r.status == OK ==> r.body == Some(ReadMessage)
    ensures r.store.(notifications := s.notifications) == s
    ensures |r.store.notifications| == |s.notifications|
    ensures forall i :: 0 <= i < |s.notifications| ==>
              r.store.notifications[i] == s.notifications[i].(isRead := r.store.notifications[i].isRead)
    ensures forall i :: 0 <= i < |s.notifications| && s.notifications[i].id != id ==>
              r.store.notifications[i] == s.notifications[i]
    ensures r.status.OK? && NotificationsValid(s.notifications, s.clock) ==>
              forall i :: 0 <= i < |s.notifications| && s.notifications[i].id == id ==> r.store.notifications[i].isRead
  {
    match FindOwned(s.notifications, u, id, 0)
    case None => Reply(NotFound, None, s)
    case Some(i) =>
      var ns := s.notifications[i := s.notifications[i].(isRead := true)];
      Reply(OK, Some(ReadMessage), s.(notifications := ns))
  }

  /** Marking a notification read twice leaves the same state as marking it once. */
  lemma MarkReadIdempotent(s: Store, u: UserId, id: NotificationId)
    requires NotificationsValid(s.notifications, s.clock)
    ensures var once := MarkRead(s, u, id);
            MarkRead(once.store, u, id) == once
  {
    var once := MarkRead(s, u, id);
    var twice := MarkRead(once.store, u, id);
    if once.status.OK? {
      var i :| 0 <= i < |s.notifications| && s.notifications[i].id == id && s.notifications[i].recipient == u;
      assert once.store.notifications[i].id == id && once.store.notifications[i].recipient == u;
      assert twice.status.OK?;
      var ns := once.store.notifications;
      assert ns[i].isRead;
      assert twice.store.notifications == ns;
    }
  }

  /** Another user's notification lies outside the requester's queryset: `mark_read` answers 404 and changes nothing. */
  lemma MarkReadOthersNotFound(s: Store, u: UserId, id: NotificationId, i: nat)
    requires NotificationsValid(s.notifications, s.clock)
    requires i < |s.notifications| && s.notifications[i].id == id && s.notifications[i].recipient != u
    ensures MarkRead(s, u, id) == Reply(NotFound, None, s)
  {
  }

  lemma MarkReadKeepsValid(s: Store, u: UserId, id: NotificationId)
    requires Valid(s)
    ensures Valid(MarkRead(s, u, id).store)
  {
  }
}
