# blog_train store model

A functional Dafny model of the blog backend of `blog_train`, a Django REST
Framework service. The model covers the comment tree, the like registry, the
like notification task, notification listing and `mark_read`, and post
creation and deletion with tag normalisation.

The whole database is one immutable `Store` (`store.dfy`). It holds:

- users, as id ↦ username;
- posts;
- tag names;
- the comment arena, as id ↦ comment with the django-mptt `level` kept in the row;
- the set of `(user, post)` likes;
- the notification list;
- a `clock`.

Every post, comment and notification that is created takes the clock as its
id, and the clock then moves on. So their ids double as `created_at`, and
"oldest first" means "ascending id". Tags are keyed by name and likes by their
`(user, post)` pair; neither takes a clock id.

Each endpoint is a pure function, or a method where the source loops. It takes
the store and the requester (`Option<UserId>`, where `None` means no valid
token) and returns a `Reply`: the HTTP status, the serialised body, and the
store afterwards.

`Valid` is the integrity the database keeps:

- every foreign key resolves;
- every comment sits one level below its parent, and no level exceeds 2;
- every category is one of the 15 codes;
- tag names are lower-cased;
- notification ids increase along the list, and every recipient exists.

Each operation that changes the store is proved to keep `Valid`.

Modules:

- `Text`: Python's `strip` and `lower`, and the name order of tags.
- `Store`: rows, statuses and the integrity invariant.
- `CommentTree`: children, the nested `replies` view, tree order and the cascade.
- `Comments`: `CommentViewSet` and `CommentSerializer.validate`.
- `Likes`: `LikeViewSet` and `likes_count`.
- `Notifications`: `send_like_notification`, the inbox and `mark_read`.
- `Posts`: `PostSerializer` (category, tags, representation) and post deletion.

In these places the model follows the code:

- A reply's parent is not checked to belong to the same post (blog/serializers.py:77-84, blog/views.py:35-41).
- `mark_read` on another user's notification answers 404. The notification lies outside the requester's queryset, so no 403 is sent (notifications/views.py:12, 16).
- `category` is a required `ChoiceField` in the serializer (blog/serializers.py:21). A post created through the API therefore never gets the model's `'OTHER'` default.
- A comment posted under a post id that names no post breaks the foreign key, so the answer is 500 rather than 404 (blog/views.py:35-41).
- A non-author's comment delete is refused by `AuthorOrReadOnly` inside `get_object()` (blog/views.py:44). Assuming `AuthorOrReadOnly` sets no `message` of its own, the detail is DRF's "You do not have permission to perform this action." The view's own author check and its message (blog/views.py:45-46) are never reached by a non-author.
- Creating a post saves the row before the tags are resolved (blog/serializers.py:43). A tag lookup that breaks the unique constraint then answers 500, and the post row and the tags created before it stay stored (see Findings).
- `title`, `content` and each tag are DRF `CharField`s with `trim_whitespace`, so they are stored stripped.

The comment listing is `Comment.objects.filter(post_id=…)` in the default
django-mptt manager order, `(tree_id, lft)`. The model writes that order as
the pre-order walk of the whole forest: roots oldest first, children oldest
first (`order_insertion_by = ['created_at']`). The listing then keeps the
comments of the post. Each listed comment carries its nested replies.

Replies are taken from the tree and not filtered by post. Deleting a comment
or a post removes every comment below the deleted ones, whichever post they
name.

The permission class `AuthorOrReadOnly` (blog/permissions.py) is not part of
this model. It is read the way the route tests (blog/tests/test_routes.py) expect it to behave:

- writes need a token, otherwise 401;
- object writes need the author, otherwise 403.

## Model

| member | source | states |
|---|---|---|
| Text.Strip | blog/serializers.py:49-50 | the stripped name is empty exactly when every character is whitespace; otherwise it is the slice of the input that neither starts nor ends with whitespace, and only whitespace lies outside it |
| Text.Lower | blog/models.py:13 | lower-casing keeps the length and maps each character on its own: an ASCII, Latin-1 or basic Cyrillic capital moves by 32 code points, Ѐ–Џ by 80, and every other character is kept, so no capital is left |
| Text.DecimalRoundTrip | blog/models.py:82 | the decimal form of an id, as DRF writes it into its not-found message, reads back as the same id |
| Text.LowerIdempotent | blog/models.py:12-14 | a stored tag name has no upper-case letter, lower-casing it again changes nothing, and a name is stored unchanged exactly when it is already lower-case |
| Text.SortedNames | blog/models.py:16-17 | tag names are listed once each, all of them and nothing else, in strictly ascending name order |
| CommentTree.Children | blog/models.py:86-87 | a comment's children are exactly the comments whose parent it is, in ascending creation order, all created after it |
| CommentTree.Thread | blog/serializers.py:72-75 | the serialised comment carries its own id, content and parent, and its i-th reply is the serialisation of its i-th child |
| CommentTree.RepliesAreChildren | blog/serializers.py:72-75 | the ids in `replies` are the direct children in ascending creation order, and `replies` is the empty list exactly when nobody replied |
| CommentTree.ThreadDepth | blog/serializers.py:77-84 | the nested view of a comment at level l is at most 3 − l levels deep, so no view nests past three levels |
| CommentTree.Forest | blog/views.py:31-33 | the tree-order listing holds only stored comments created before the clock |
| CommentTree.ForestExact | blog/views.py:31-33 | tree order lists every comment exactly once |
| CommentTree.Cascade | blog/models.py:82 | a cascade only removes comments and never alters one; a comment goes exactly when it is one of the deleted comments or its parent went |
| CommentTree.CascadeRemovesSubtrees | blog/models.py:82 | deleting a set of comments removes exactly the comments in their subtrees, as tree order lists them, and keeps every other comment |
| CommentTree.CascadeKeepsArena | blog/models.py:82 | after a cascade every remaining parent exists, levels still follow parents, and the deleted comments are gone |
| CommentTree.DeleteRemovesSubtree | blog/models.py:82 | deleting a comment removes exactly the comments of its subtree in tree order and keeps every other one |
| Comments.CheckParent | blog/serializers.py:77-84 | a root always passes; a reply is refused with the depth message exactly when its parent's level is 2 or more, and with DRF's not-found message for the requested pk when the parent is missing |
| Comments.NoSuchParent | blog/models.py:82 | the not-found message is `Invalid pk "<pk>" - object does not exist.`, with the pk written in decimal without leading zeros so that it reads back as the requested pk |
| Comments.CreateComment | blog/views.py:35-41 | 201 exactly when the requester is authenticated, the parent passes and the post exists, and 500 with nothing stored when the post is missing; the new comment's author is the requester and its post is the URL post, whatever the body says; its content is the trimmed content; nothing else changes; every refusal leaves the store unchanged |
| Comments.ReplyTooDeep | blog/serializers.py:80-83 | a reply below a level-2 comment is answered 400 with the depth message and stores nothing |
| Comments.CreateCommentKeepsValid | blog/serializers.py:77-84 | creating a comment keeps every level at 0, 1 or 2; a new comment sits one level below its parent, or at level 0 as a root |
| Comments.ListComments | blog/views.py:31-33 | every listed comment belongs to the URL post and is shown with its nested replies |
| Comments.ListedExactlyOnce | blog/views.py:31-33 | every comment of the post, replies included, is listed, and none twice |
| Comments.RetrieveComment | blog/views.py:31-33 | a comment is found exactly when it exists and belongs to the URL post, otherwise 404; nothing changes |
| Comments.RetrievedIsListed | blog/views.py:31-33 | a comment is found exactly when the post's listing shows it, and the detail view equals the listed entry |
| Comments.DestroyComment | blog/views.py:43-48 | 401 without a token, 404 outside the post, 403 with the permission class's message for a non-author, each with the store unchanged; otherwise 204, a comment survives exactly when it is not below the deleted one, and survivors are unchanged |
| Comments.DestroyCommentKeepsValid | blog/models.py:82 | after a delete no remaining comment has a missing parent, and the whole subtree is gone |
| Comments.UpdateComment | blog/views.py:50-54 | full and partial updates are refused: 401 without a token, 405 otherwise, and the store never changes |
| Likes.LikesCountIsLikers | blog/serializers.py:35-36 | the like count equals the number of distinct users who like the post |
| Likes.LikesCount | blog/serializers.py:35-36 | the count is zero exactly when no like names the post, and never exceeds the number of likes |
| Likes.Like | blog/views.py:65-83 | 401, then 404 for a missing post, then 400 for a repeated like with the store unchanged; otherwise the pair is added, the notification step runs once on that state, and the body is the post id |
| Likes.LikeCountsOnce | blog/models.py:102-107 | a first like raises that post's count by one; any other answer leaves every count as it was |
| Likes.DuplicateLikeHasNoEffect | blog/views.py:69-78 | a repeated like answers 400 and changes neither likes nor notifications |
| Likes.LikeNeverFails | notifications/tasks.py:12 | an authenticated liker always exists, so the notification task's missing-user error never surfaces from a like |
| Likes.Unlike | blog/views.py:84-88 | 404 with nothing changed when the requester has no like on the post; otherwise exactly that pair is removed and the answer is 204 |
| Likes.UnlikeCountsOnce | blog/views.py:84-88 | unliking lowers the post's count by one exactly when it answers 204 |
| Likes.LikeThenUnlike | blog/views.py:65-88 | unliking right after a first like restores the original like set |
| Likes.LikeKeepsValid | blog/models.py:97-107 | liking keeps every like's user and post existing |
| Notifications.LikeMessage | notifications/tasks.py:17 | the message is the liker's name, ` liked your post "`, the title and a closing quote |
| Notifications.SendLikeNotification | notifications/tasks.py:9-20 | a missing post is a no-op; a missing liker of an existing post is an error; a self-like changes nothing; otherwise exactly one unread notification to the author is appended and nothing else changes |
| Notifications.NotifiesOnlyTheAuthor | notifications/tasks.py:13-18 | the author's inbox grows by exactly one on someone else's like, by none on a self-like, and nobody else's changes |
| Notifications.ListNotifications | notifications/views.py:11-12 | the listing holds exactly the requester's notifications |
| Notifications.Inbox | notifications/views.py:12 | the inbox holds exactly the user's notifications, as many as are addressed to them |
| Notifications.InboxNewestFirst | notifications/views.py:12 | when notification ids grow along the stored list, the inbox lists them with strictly decreasing ids |
| Notifications.MarkRead | notifications/views.py:14-19 | 200 exactly when the notification is the requester's, and it is then read; only its `is_read` changes; otherwise 404 with nothing changed |
| Notifications.MarkReadIdempotent | notifications/views.py:14-19 | marking a notification read twice gives the same answer and state as once |
| Notifications.MarkReadOthersNotFound | notifications/views.py:11-16 | another user's notification is not found and nothing changes |
| Posts.CheckCategory | blog/serializers.py:21 | a category is accepted exactly when it is one of the 15 codes; a missing one is refused as required, an unknown one as not a valid choice |
| Posts.GetOrCreateTagAsWritten | blog/serializers.py:51 | looking a tag up by the name as given reuses it when present; otherwise it fails exactly when the lower-cased name is already taken |
| Posts.CaseVariantOfExistingTagFails | blog/serializers.py:51 | over lower-case stored tags, any name that is not lower-case and whose lower-cased form is stored makes the lookup as written fail |
| Posts.PythonAfterPythonFails | blog/serializers.py:51 | with the tag "python" stored, the name "Python" breaks the unique constraint |
| Posts.GetOrCreateTag | blog/models.py:12-14 | the linked tag is the lower-cased name; it is reused exactly when already stored, and created otherwise (the lookup as intended) |
| Posts.GetOrCreateTagAgrees | blog/serializers.py:51 | wherever the lookup by the name as given succeeds, the lookup by the lower-cased name gives the same tag and tag set |
| Posts.LinkTags | blog/serializers.py:46-55 | the loop as intended: the linked tags are exactly the stripped, non-blank, lower-cased requested names, and the stored tags gain exactly those |
| Posts.LinkAsWritten | blog/serializers.py:46-55 | the loop as written only adds tags, each one the stripped, lower-cased form of a requested name; when it gets through, the stored tags gain exactly the linked ones |
| Posts.LinkAsWrittenAgrees | blog/serializers.py:46-55 | whenever the loop as written gets through over lower-case stored tags, it links and stores the same tags as the loop as intended |
| Posts.LowerNamesLink | blog/serializers.py:46-55 | over lower-case stored tags, the loop as written gets through whenever every stripped name is already lower-case |
| Posts.LinkAsWrittenBreaks | blog/serializers.py:48-52 | a name in another case than a stored tag, or than a tag an earlier name of the request created, makes the loop as written break |
| Posts.BreaksOnlyOnClash | blog/serializers.py:48-52 | over lower-case stored tags, the loop as written breaks only on a clashing name: one not lower-case whose lower-cased form is stored or was created by an earlier name of the request |
| Posts.BrokeKeepsEarlierTags | blog/serializers.py:48-52 | over lower-case stored tags, a break happens at the first clashing name, and the stored tags are then exactly the old ones plus the tags of the names before it |
| Posts.SameRequestCaseVariantBreaks | blog/serializers.py:48-52 | "python" then "Python" in one request break the loop on a fresh store, after "python" was stored |
| Posts.Represent | blog/serializers.py:59-62 | the output `tags` lists each tag of the post once, in name order, and `likes_count` is the number of users who like it |
| Posts.CreatePost | blog/serializers.py:38-57 | 401, then 400 for a missing or unknown category with nothing stored; otherwise a post row by the requester with the trimmed title and content and the requested category is added at a fresh id and other posts are untouched; the answer is 201 exactly when the tag loop gets through, with the post linked to the loop's tags and the body its representation, and 500 otherwise, with the row kept without tags and the tag table as the loop left it at the break |
| Posts.CreatePostKeepsValid | blog/serializers.py:38-62 | creating a post keeps the store valid whatever the answer; a created post is linked to exactly the kept tags, the answer lists each of them once, and it starts with no likes |
| Posts.CaseVariantTagAnswers500 | blog/serializers.py:43-52 | with "python" stored, a post asking for "Python" is answered 500 while its row stays stored without tags |
| Posts.FailedPostKeepsEarlierTags | blog/serializers.py:43-52 | in a valid store, a 500 from post creation leaves exactly the old tags plus those of the requested names before the first clashing one |
| Posts.DestroyPost | blog/models.py:81-99 | 401, 404 or 403 leave the store unchanged; the author's delete removes the post and its likes, and a comment survives exactly when it lies below none of the post's comments, unchanged |
| Posts.DestroyPostKeepsValid | blog/models.py:81-99 | after a post delete every remaining comment's post and parent and every like's post still exist |
| Posts.DestroyPostRemovesThreads | blog/models.py:81-99 | in a valid store, a post delete removes exactly the threads of the post's comments, as tree order lists them, and keeps every other comment |

## Left out

- Request field validation is not modelled. This covers the title and tag length limits. It also covers the tag `CharField` trimming whitespace and refusing a blank name before `create` runs, which makes the strip-and-skip in `create` a second line of defence.
- The 403 detail of a refused object write is DRF's default permission message. This assumes `AuthorOrReadOnly` sets no `message` of its own; the class is not part of this model.
- Authentication is not modelled: tokens, djoser and the `AuthorOrReadOnly` class. The requester is an input, and a user id that is not in the store counts as unauthenticated.
- The notification endpoints are modelled for an authenticated requester only. Anonymous access depends on project settings that are not part of this model.
- The notification task is called synchronously by the view, so Celery queueing, retries and delivery are not modelled.
- Database transactions and the `get_or_create` race are not modelled. The unique constraints are set semantics.
- Timestamps are not modelled. One creation counter orders everything.
- Post update, listing, search, filtering and ordering are not modelled.
- The `LikeViewSet` listing is not modelled.
- The notification endpoints other than listing and `mark_read` are not modelled.
- Users are not modelled beyond their ids and names. Deleting a user is not modelled.
- The `'OTHER'` default of `Post.category` is not modelled, because it is only reachable by creating rows outside the API.
- Text.Lower: case mapping is limited to ASCII, Latin-1 and basic Cyrillic capitals. Python's full Unicode `lower()` is not modelled.
- Text.SortedNames: tag names are ordered by code point. The database collation may order them differently.
- The `ATOMIC_REQUESTS` setting is not part of this model. Requests are taken to run without a wrapping transaction, so the writes made before a 500 persist.
- A title or content that is blank after trimming is refused by field validation; that refusal is not modelled, and such a value is stored as the empty string.

## Findings

| source | as written | input that shows it | evidently intended | confidence | as-written member | corrected member |
|---|---|---|---|---|---|---|
| blog/serializers.py:51 | `Tag.objects.get_or_create(name=tag_name)` looks the tag up by the stripped name as given, while `Tag.save` stores it lower-cased (blog/models.py:12-14) | tag "python" stored, then a post created with tags ["Python"]: the lookup misses, the insert of "python" breaks the unique constraint, and the request fails with the post already saved | reuse the existing tag "python" | medium, not executed | Posts.CaseVariantTagAnswers500 | Posts.LinkTags |

`Posts.CreatePost` follows the code: it runs `Posts.LinkAsWritten`. The
concrete input above is `Posts.CaseVariantTagAnswers500`. Its lookup-level forms
are `Posts.PythonAfterPythonFails` and, for every such name,
`Posts.CaseVariantOfExistingTagFails`. The same break inside one request is
`Posts.SameRequestCaseVariantBreaks`. `Posts.LinkTags` is the loop with the
intended lookup (`Posts.GetOrCreateTag`). `Posts.LinkAsWrittenAgrees` and
`Posts.LowerNamesLink` show that the two loops link the same tags whenever the
written one gets through, and that it always does when every requested name is
already lower-case. `Posts.LinkAsWrittenBreaks` and `Posts.BreaksOnlyOnClash`
together show that the written loop breaks exactly on a clashing name, and
`Posts.BrokeKeepsEarlierTags` gives the tags it leaves stored.
