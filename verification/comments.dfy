/**
 The comment endpoints under a post: `CommentViewSet` (blog/views.py) with the
 depth check of `CommentSerializer.validate` (blog/serializers.py).
 */
module Comments {
  import opened Store
  import opened CommentTree
  import opened Text

  /** The 400 body of a reply below level 2 ("the maximum reply depth is 3 levels"). */
  const DepthMessage: string := "Максимальная глубина ответов - 3 уровня"
  /** The 400 body when `parent` names no comment: DRF's `does_not_exist` message for a primary-key field. */
  function NoSuchParent(pk: CommentId): (m: string)
    ensures |m| >= 39
    ensures m[..12] == "Invalid pk \"" && m[|m| - 26..] == "\" - object does not exist."
    ensures var digits := m[12..|m| - 26];
            && |digits| >= 1 && (forall i :: 0 <= i < |digits| ==> IsDigit(digits[i]))
            && (digits[0] == '0' ==> digits == "0")
            && DigitsValue(digits) == pk
  {
    DecimalRoundTrip(pk);
    var m := "Invalid pk \"" + Decimal(pk) + "\" - object does not exist.";
    assert m[12..|m| - 26] == Decimal(pk);
    m
  }
  const UpdateRefused: string := "Updating comments is not allowed."

  /**
   The request body. `post` and `author` are hidden fields: whatever the client
   sends in them is ignored.
   */
  datatype CommentInput = CommentInput(content: string, parent: Option<CommentId>, post: Option<PostId>, author: Option<UserId>)

  /** `CommentSerializer.validate`: the error to report, if any, for the requested parent. */
  function CheckParent(cs: Arena, parent: Option<CommentId>): (e: Option<string>)
    ensures parent.None? ==> e.None?
    ensures parent.Some? && parent.value !in cs ==> e == Some(NoSuchParent(parent.value))
    ensures parent.Some? && parent.value in cs ==>
              (e.Some? <==> cs[parent.value].level >= 2) && (e.Some? ==> e.value == DepthMessage)
  {
    match parent
    case None => None
    case Some(p) =>
      if p !in cs then Some(NoSuchParent(p))
      else if cs[p].level >= 2 then Some(DepthMessage)
      else None
  }

  /**
   `create` with `perform_create`: the author is the requester and the post is
   the one in the URL, whatever the body says; the parent is checked for depth
   but not for belonging to the same post. A post id naming no post breaks the
   foreign key, which the database refuses.
   */
  function CreateComment(s: Store, requester: Option<UserId>, postId: PostId, input: CommentInput): (r: Reply<CommentView>)
    ensures r.status == Created <==>
              && Authenticated(s, requester)
              && CheckParent(s.comments, input.parent).None?
              && postId in s.posts
    ensures r.status != Created ==> r.store == s && r.body.None?
    ensures !Authenticated(s, requester) ==> r.status == Unauthorized
    ensures Authenticated(s, requester) && CheckParent(s.comments, input.parent).Some? ==>
              r.status == BadRequest(CheckParent(s.comments, input.parent).value)
    ensures Authenticated(s, requester) && CheckParent(s.comments, input.parent).None? && postId !in s.posts ==>
              r == Reply(ServerError, None, s)
    ensures r.status == Created ==>
              var c := s.clock;
              && r.store == s.(comments := r.store.comments, clock := s.clock + 1)
              && r.store.comments.Keys == s.comments.Keys + {c}
              && (forall k :: k in s.comments && k != c ==> r.store.comments[k] == s.comments[k])
              && r.store.comments[c].author == requester.value
              && r.store.comments[c].post == postId
              && r.store.comments[c].parent == input.parent
              && r.store.comments[c].content == Strip(input.content)
              && r.body == Some(Thread(r.store.comments, c, r.store.clock))
  {
    if !Authenticated(s, requester) then Reply(Unauthorized, None, s)
    else match CheckParent(s.comments, input.parent)
      case Some(e) => Reply(BadRequest(e), None, s)
      case None =>
        if postId !in s.posts then Reply(ServerError, None, s)
        else
          var c := s.clock;
          var level := if input.parent.None? then 0 else s.comments[input.parent.value].level + 1;
          var cs := s.comments[c := Comment(requester.value, postId, input.parent, Strip(input.content), level)];
          var s' := s.(comments := cs, clock := s.clock + 1);
          Reply(Created, Some(Thread(cs, c, s'.clock)), s')
  }

  /** A reply to a comment at level 2 or deeper is refused with the depth message and nothing is stored. */
  lemma ReplyTooDeep(s: Store, u: UserId, postId: PostId, input: CommentInput)
    requires u in s.users && input.parent.Some? && input.parent.value in s.comments
    requires s.comments[input.parent.value].level >= 2
    ensures var r := CreateComment(s, Some(u), postId, input);
            r.status == BadRequest(DepthMessage) && r.store == s
  {
  }

  /** A new comment sits one level below its parent (a root at level 0), and the store stays valid. */
  lemma CreateCommentKeepsValid(s: Store, requester: Option<UserId>, postId: PostId, input: CommentInput)
    requires Valid(s)
    ensures var r := CreateComment(s, requester, postId, input);
            && Valid(r.store)
            && (r.status == Created ==>
                  var c := s.clock;
                  && c !in s.comments
                  && r.store.comments[c].level == (if input.parent.None? then 0 else s.comments[input.parent.value].level + 1))
  {
    var r := CreateComment(s, requester, postId, input);
    if r.status == Created {
      var cs := r.store.comments;
      forall k | k in cs
        ensures k < r.store.clock && ParentOk(cs, k) && cs[k].level <= 2
      {
        if k != s.clock {
          assert ParentOk(s.comments, k);
        }
      }
    }
  }

  /**
   `get_queryset` as listed: the comments of the post, replies included, in
   tree order, each serialised with its nested replies.
   */
  function ListComments(s: Store, postId: PostId): (r: seq<CommentView>)
    ensures forall i :: 0 <= i < |r| ==> r[i].id in s.comments && s.comments[r[i].id].post == postId
    ensures forall i :: 0 <= i < |r| ==> r[i] == Thread(s.comments, r[i].id, s.clock)
  {
    var ks := OfPost(s.comments, Forest(s.comments, s.clock), postId);
    var vs := Threads(s.comments, ks, s.clock, -1);
    assert forall i :: 0 <= i < |vs| ==> vs[i].id == ks[i] && ks[i] in ks;
    vs
  }

  /** The ids of the comments of `postId` among `ks`, in the order of `ks`. */
  function OfPost(cs: Arena, ks: seq<CommentId>, postId: PostId): (r: seq<CommentId>)
    requires forall k :: k in ks ==> k in cs
    ensures forall k :: k in r <==> k in ks && cs[k].post == postId
  {
    if ks == [] then []
    else
      var rest := OfPost(cs, ks[1..], postId);
      assert forall k :: k in rest ==> k in ks[1..];
      if cs[ks[0]].post == postId then [ks[0]] + rest else rest
  }

  lemma {:induction false} OfPostDistinct(cs: Arena, ks: seq<CommentId>, postId: PostId)
    requires forall k :: k in ks ==> k in cs
    requires NoDup(ks)
    ensures NoDup(OfPost(cs, ks, postId))
  {
    if ks != [] {
      OfPostDistinct(cs, ks[1..], postId);
      var rest := OfPost(cs, ks[1..], postId);
      if cs[ks[0]].post == postId {
        assert ks[0] !in ks[1..];
        NoDupConcat([ks[0]], rest);
      }
    }
  }

  /** The listing holds every comment of the post, replies included, and each exactly once. */
  lemma ListedExactlyOnce(s: Store, postId: PostId)
    requires Valid(s)
    ensures var r := ListComments(s, postId);
            && (forall k :: k in s.comments && s.comments[k].post == postId ==> exists i :: 0 <= i < |r| && r[i].id == k)
            && (forall i, j :: 0 <= i < j < |r| ==> r[i].id != r[j].id)
  {
    var r := ListComments(s, postId);
    ForestExact(s.comments, s.clock);
    var ks := OfPost(s.comments, Forest(s.comments, s.clock), postId);
    OfPostDistinct(s.comments, Forest(s.comments, s.clock), postId);
    assert |r| == |ks| && forall i :: 0 <= i < |r| ==> r[i].id == ks[i];
    forall k | k in s.comments && s.comments[k].post == postId
      ensures exists i :: 0 <= i < |r| && r[i].id == k
    {
      var i :| 0 <= i < |ks| && ks[i] == k;
      assert r[i].id == k;
    }
  }

  /** `retrieve`: the comment, if it belongs to the post in the URL, with its nested replies. */
  function RetrieveComment(s: Store, postId: PostId, c: CommentId): (r: Reply<CommentView>)
    ensures r.store == s
    ensures r.status == OK <==> c in s.comments && s.comments[c].post == postId
    ensures r.status != OK ==> r.status == NotFound
    ensures r.status == OK ==> r.body.Some? && r.body.value.id == c
  {
    if c in s.comments && s.comments[c].post == postId then
      Reply(OK, Some(Thread(s.comments, c, s.clock)), s)
    else Reply(NotFound, None, s)
  }

  /** A comment is found exactly when the post's listing shows it, and the detail view is the listed one. */
  lemma RetrievedIsListed(s: Store, postId: PostId, c: CommentId)
    requires Valid(s)
    ensures var r := RetrieveComment(s, postId, c);
            var l := ListComments(s, postId);
            && (r.status == OK <==> exists i :: 0 <= i < |l| && l[i].id == c)
            && (forall i :: 0 <= i < |l| && l[i].id == c ==> r.body == Some(l[i]))
  {
    ListedExactlyOnce(s, postId);
  }

  /**
   `destroy`: 401 for an anonymous requester, 404 when the comment is not one
   of the URL post's, 403 when the requester is not its author; otherwise the
   comment and everything below it are deleted and the answer is 204. The 403
   comes from the permission class inside `get_object`, with DRF's default
   message (the class is taken to set none of its own), so the view's own
   author check never refuses anybody.
   */
  function DestroyComment(s: Store, requester: Option<UserId>, postId: PostId, c: CommentId): (r: Reply<CommentView>)
    ensures r.body.None?
    ensures r.status != NoContent ==> r.store == s
    ensures !Authenticated(s, requester) ==> r.status == Unauthorized
    ensures Authenticated(s, requester) && !(c in s.comments && s.comments[c].post == postId) ==> r.status == NotFound
    ensures Authenticated(s, requester) && c in s.comments && s.comments[c].post == postId && s.comments[c].author != requester.value ==>
              r.status == Forbidden(PermissionDenied)
    ensures r.status == NoContent <==>
              Authenticated(s, requester) && c in s.comments && s.comments[c].post == postId && s.comments[c].author == requester.value
    ensures r.status == NoContent ==>
              && r.store == s.(comments := r.store.comments)
              && c !in r.store.comments
              && (forall x :: x in r.store.comments <==> x in s.comments && !Below(s.comments, x, c))
              && (forall x :: x in r.store.comments ==> r.store.comments[x] == s.comments[x])
  {
    if !Authenticated(s, requester) then Reply(Unauthorized, None, s)
    else if !(c in s.comments && s.comments[c].post == postId) then Reply(NotFound, None, s)
    else if s.comments[c].author != requester.value then Reply(Forbidden(PermissionDenied), None, s)
    else Reply(NoContent, None, s.(comments := Cascade(s.comments, {c})))
  }

  /** After a delete no remaining comment points at a missing parent, and none of the deleted subtree resolves. */
  lemma DestroyCommentKeepsValid(s: Store, requester: Option<UserId>, postId: PostId, c: CommentId)
    requires Valid(s)
    ensures var r := DestroyComment(s, requester, postId, c);
            && Valid(r.store)
            && (r.status == NoContent ==> forall x :: x in Preorder(s.comments, c, s.clock) ==> x !in r.store.comments)
  {
    var r := DestroyComment(s, requester, postId, c);
    if r.status == NoContent {
      CascadeKeepsArena(s.comments, s.clock, {c});
      DeleteRemovesSubtree(s.comments, s.clock, c);
    }
  }

  /** `update` (`partial` false) and `partial_update` (`partial` true): refused with 405, nothing changes. */
  function UpdateComment(s: Store, requester: Option<UserId>, postId: PostId, c: CommentId, input: CommentInput, partial: bool): (r: Reply<CommentView>)
    ensures r.store == s && r.body.None?
    ensures !Authenticated(s, requester) ==> r.status == Unauthorized
    ensures Authenticated(s, requester) ==> r.status.Code() == 405
    ensures r.status.Code() == 405 || r.status == Unauthorized
  {
    if !Authenticated(s, requester) then Reply(Unauthorized, None, s)
    else Reply(MethodNotAllowed(UpdateRefused), None, s)
  }
}
