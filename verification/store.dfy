/**
 The blog's persistent state, as the Django models describe it
 (blog/models.py, the notifications model and the user model), together with
 the HTTP statuses the views answer with.

 A single `clock` stands in for the database's auto-increment keys and for
 `created_at`: every row that is created takes the current clock value as its
 id and the clock moves on, so ascending ids are ascending creation times.
 */
module Store {
  import opened Text

  type UserId = nat
  type PostId = nat
  type CommentId = nat
  type NotificationId = nat

  datatype Option<+T> = None | Some(value: T)

  datatype Result<+T, +E> = Success(value: T) | Failure(error: E)

  /** The codes of `Post.CATEGORY_CHOICES`, in their declared order. */
  const Categories: seq<string> := [
    "PROGRAMMING", "CARS", "COOKING", "TRAVEL", "MUSIC", "SPORT", "MOVIES", "GAMES",
    "PHOTOGRAPHY", "ENTERTAINMENT", "HEALTH", "EDUCATION", "BUSINESS", "ANIMALS", "OTHER"
  ]

  /** A post row; its tags are the names of the linked `Tag` rows (a tag name is unique, so it is the key). */
  datatype Post = Post(author: UserId, title: string, content: string, category: string, tags: set<string>)

  /**
   A comment row. `level` is the django-mptt tree level kept in the row:
   0 for a root, the parent's level plus one for a reply.
   */
  datatype Comment = Comment(author: UserId, post: PostId, parent: Option<CommentId>, content: string, level: nat)

  datatype Notification = Notification(id: NotificationId, recipient: UserId, message: string, isRead: bool)

  datatype Store = Store(
    users: map<UserId, string>,        // id -> username
    posts: map<PostId, Post>,
    tags: set<string>,
    comments: map<CommentId, Comment>,
    likes: set<(UserId, PostId)>,      // the unique (user, post) constraint is set membership
    notifications: seq<Notification>,  // in insertion order
    clock: nat)

  /** What a view answers; the strings are the `detail` or `message` bodies the source sends. */
  datatype Status =
    | OK
    | Created
    | NoContent
    | BadRequest(detail: string)
    | Unauthorized
    | Forbidden(detail: string)
    | NotFound
    | MethodNotAllowed(detail: string)
    | ServerError
  {
    function Code(): int {
      match this
      case OK => 200
      case Created => 201
      case NoContent => 204
      case BadRequest(_) => 400
      case Unauthorized => 401
      case Forbidden(_) => 403
      case NotFound => 404
      case MethodNotAllowed(_) => 405
      case ServerError => 500
    }
  }

  /** DRF's default 403 body when an object permission refuses the request; `AuthorOrReadOnly` is taken to set no `message` of its own. */
  const PermissionDenied: string := "You do not have permission to perform this action."

  /** A view's answer: its status, the serialised body if any, and the store afterwards. */
  datatype Reply<+T> = Reply(status: Status, body: Option<T>, store: Store)

  /**
   The requester passes authentication when a token names a user that still
   exists; anything else is answered with 401 by the permission classes.
   */
  predicate Authenticated(s: Store, requester: Option<UserId>) {
    requester.Some? && requester.value in s.users
  }

  /** Comment `k`'s parent link and level agree with each other and point backwards in time. */
  predicate ParentOk(cs: map<CommentId, Comment>, k: CommentId)
    requires k in cs
  {
    match cs[k].parent
    case None => cs[k].level == 0
    case Some(p) => p in cs && p < k && cs[k].level == cs[p].level + 1
  }

  /** The comment arena: every parent exists, levels are derived from parents, and no level exceeds 2. */
  predicate ArenaValid(cs: map<CommentId, Comment>, clock: nat) {
    forall k :: k in cs ==> k < clock && ParentOk(cs, k) && cs[k].level <= 2
  }

  /** Notification ids increase along the list and are all below the clock. */
  predicate NotificationsValid(ns: seq<Notification>, clock: nat) {
    && (forall i :: 0 <= i < |ns| ==> ns[i].id < clock)
    && (forall i, j :: 0 <= i < j < |ns| ==> ns[i].id < ns[j].id)
  }

  /** The integrity the database's constraints keep. */
  predicate Valid(s: Store) {
    && ArenaValid(s.comments, s.clock)
    && (forall k :: k in s.comments ==> s.comments[k].post in s.posts && s.comments[k].author in s.users)
    && (forall p :: p in s.posts ==>
          p < s.clock && s.posts[p].author in s.users && s.posts[p].category in Categories
          && s.posts[p].tags <= s.tags)
    && (forall t :: t in s.tags ==> IsLowered(t))
    && (forall l :: l in s.likes ==> l.0 in s.users && l.1 in s.posts)
    && (forall i :: 0 <= i < |s.notifications| ==> s.notifications[i].recipient in s.users)
    && NotificationsValid(s.notifications, s.clock)
  }
}
