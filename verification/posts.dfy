/**
 Posts: `PostSerializer` (blog/serializers.py) with its category check, tag
 handling in `create`, `to_representation` and `likes_count`; `Tag.save`
 lower-casing (blog/models.py); and deleting a post, whose comments and likes
 go with it through their `on_delete=CASCADE` foreign keys.
 */
module Posts {
  import opened Text
  import opened Store
  import opened CommentTree
  import Likes

  const RequiredMessage: string := "This field is required."

  /** The request body of a new post; `tags` defaults to the empty list. */
  datatype PostInput = PostInput(title: string, content: string, category: Option<string>, tags: seq<string>)

  /** The serialised post: `id`, `title`, `content`, `tags`, `category`, `created_at`, `likes_count` (`author` is hidden). */
  datatype PostView = PostView(id: PostId, title: string, content: string, tags: seq<string>, category: string, createdAt: nat, likesCount: nat)

  /** The `category` ChoiceField: the field is required and must be one of the codes. */
  function CheckCategory(c: Option<string>): (r: Result<string, string>)
    ensures r.Success? <==> c.Some? && c.value in Categories
    ensures r.Success? ==> r.value == c.value
    ensures c.None? ==> r == Failure(RequiredMessage)
    ensures c.Some? && c.value !in Categories ==> r == Failure("\"" + c.value + "\" is not a valid choice.")
  {
    match c
    case None => Failure(RequiredMessage)
    case Some(v) => if v in Categories then Success(v) else Failure("\"" + v + "\" is not a valid choice.")
  }

  /** The unique constraint on `Tag.name` refusing a second row with the same name. */
  datatype TagError = TagNameTaken

  /**
   `Tag.objects.get_or_create(name=n)` as written: the lookup uses `n` as
   given, but `Tag.save` stores `Lower(n)`; when that lower-cased name is
   already taken, the insert breaks the unique constraint.
   */
  function GetOrCreateTagAsWritten(tags: set<string>, n: string): (r: Result<(set<string>, string), TagError>)
    ensures n in tags ==> r == Success((tags, n))
    ensures n !in tags ==> (r.Failure? <==> Lower(n) in tags)
    ensures r.Success? ==> r.value.1 in r.value.0 && r.value.0 == tags + {r.value.1}
  {
    if n in tags then Success((tags, n))
    else
      var stored := Lower(n);
      if stored in tags then Failure(TagNameTaken) else Success((tags + {stored}, stored))
  }

  /** A name in a different case from an existing tag makes the as-written lookup fail. */
  lemma CaseVariantOfExistingTagFails(tags: set<string>, n: string)
    requires forall t :: t in tags ==> IsLowered(t)
    requires !IsLowered(n) && Lower(n) in tags
    ensures GetOrCreateTagAsWritten(tags, n) == Failure(TagNameTaken)
  {
  }

  /** The concrete case: with the tag "python" stored, the name "Python" is refused. */
  lemma PythonAfterPythonFails()
    ensures GetOrCreateTagAsWritten({"python"}, "Python") == Failure(TagNameTaken)
  {
    assert Lower("Python") == "python";
  }

  /**
   The lookup as intended: look the tag up by the name `Tag.save` would store,
   reuse it when it exists and create it otherwise. It never fails.
   */
  function GetOrCreateTag(tags: set<string>, n: string): (r: (set<string>, string))
    ensures r.1 == Lower(n) && IsLowered(r.1) && Lower(r.1) == r.1
    ensures r.1 in r.0 && r.0 == tags + {r.1}
    ensures (r.0 == tags) <==> Lower(n) in tags
  {
    LowerIdempotent(n);
    var stored := Lower(n);
    if stored in tags then (tags, stored) else (tags + {stored}, stored)
  }

  /** Wherever the as-written lookup succeeds on lower-cased tags, the intended one gives the same answer. */
  lemma GetOrCreateTagAgrees(tags: set<string>, n: string)
    requires forall t :: t in tags ==> IsLowered(t)
    requires GetOrCreateTagAsWritten(tags, n).Success?
    ensures GetOrCreateTagAsWritten(tags, n).value == GetOrCreateTag(tags, n)
  {
    LowerIdempotent(n);
  }

  /** The tags a post ends up with for the requested names: each stripped, blanks dropped, lower-cased. */
  function KeptTags(names: seq<string>): set<string> {
    set n | n in names && Strip(n) != [] :: Lower(Strip(n))
  }

  /** The tag one requested name contributes: none for a blank name, else its stripped, lower-cased form. */
  function TagOf(name: string): (r: set<string>)
    ensures forall t :: t in r ==> IsLowered(t)
    ensures |r| <= 1
  {
    var n := Strip(name);
    if n == [] then {} else LowerIdempotent(n); {Lower(n)}
  }

  lemma KeptTagsStep(names: seq<string>, i: nat)
    requires i < |names|
    ensures KeptTags(names[..i + 1]) == KeptTags(names[..i]) + TagOf(names[i])
  {
    assert names[..i + 1] == names[..i] + [names[i]];
    KeptTagsSnoc(names[..i], names[i]);
  }

  lemma KeptTagsSnoc(names: seq<string>, last: string)
    ensures KeptTags(names + [last]) == KeptTags(names) + TagOf(last)
  {
    assert forall n :: n in names + [last] <==> n in names || n == last;
  }

  /** One pass of the loop body: strip the name, skip it when blank, else get or create its tag. */
  method LinkOne(tags: set<string>, name: string) returns (tags': set<string>, t: set<string>)
    ensures t == TagOf(name)
    ensures tags' == tags + t
  {
    var n := Strip(name);
    if n == [] {
      return tags, {};
    }
    var resolved := GetOrCreateTag(tags, n);
    return resolved.0, {resolved.1};
  }

  /**
   The loop of `PostSerializer.create`: strip each name, skip the blank ones,
   get or create the tag, and collect the tags to link to the post.
   */
  method LinkTags(tags: set<string>, names: seq<string>) returns (tags': set<string>, linked: set<string>)
    ensures linked == KeptTags(names)
    ensures tags' == tags + linked
    ensures forall t :: t in linked ==> IsLowered(t)
  {
    tags' := tags;
    linked := {};
    var i := 0;
    while i < |names|
      invariant 0 <= i <= |names|
      invariant linked == KeptTags(names[..i])
      invariant tags' == tags + linked
      invariant forall t :: t in linked ==> IsLowered(t)
    {
      KeptTagsStep(names, i);
      var t;
      tags', t := LinkOne(tags', names[i]);
      linked := linked + t;
      i := i + 1;
    }
    assert names[..i] == names;
  }

  /**
   The outcome of the tag loop as written: either every name resolved, giving
   the stored tags and the tags to link, or a lookup broke the unique
   constraint, leaving the tags stored up to that point.
   */
  datatype Linking =
    | Linked(tags: set<string>, linked: set<string>)
    | Broke(tags: set<string>)

  /**
   The loop of `PostSerializer.create` as written: names are taken in request
   order, stripped, skipped when blank, and looked up with
   `GetOrCreateTagAsWritten`; the first failing lookup ends the loop, and the
   tags created before it stay stored.
   */
  function LinkAsWritten(tags: set<string>, names: seq<string>): (r: Linking)
    ensures tags <= r.tags
    ensures forall t :: t in r.tags && t !in tags ==> t in KeptTags(names)
    ensures r.Linked? ==> r.tags == tags + r.linked
    decreases |names|
  {
    if names == [] then Linked(tags, {})
    else
      KeptTagsCons(names);
      var n := Strip(names[0]);
      if n == [] then LinkAsWritten(tags, names[1..])
      else match GetOrCreateTagAsWritten(tags, n)
        case Failure(_) => Broke(tags)
        case Success((tags1, t)) =>
          match LinkAsWritten(tags1, names[1..])
          case Broke(tags2) => Broke(tags2)
          case Linked(tags2, linked) => Linked(tags2, {t} + linked)
  }

  /** The names of a request contribute their tags one after the other. */
  lemma KeptTagsCons(names: seq<string>)
    requires names != []
    ensures KeptTags(names) == TagOf(names[0]) + KeptTags(names[1..])
  {
    assert names == [names[0]] + names[1..];
    assert forall n :: n in names <==> n == names[0] || n in names[1..];
  }

  /**
   Over stored tags that are all lower-case, the loop as written agrees with
   the intended one whenever it gets through.
   */
  lemma {:induction false} LinkAsWrittenAgrees(tags: set<string>, names: seq<string>)
    requires forall t :: t in tags ==> IsLowered(t)
    ensures var r := LinkAsWritten(tags, names);
            r.Linked? ==> r.linked == KeptTags(names) && r.tags == tags + KeptTags(names)
    decreases |names|
  {
    if names != [] {
      KeptTagsCons(names);
      var n := Strip(names[0]);
      if n == [] {
        LinkAsWrittenAgrees(tags, names[1..]);
      } else {
        var g := GetOrCreateTagAsWritten(tags, n);
        if g.Success? {
          GetOrCreateTagAgrees(tags, n);
          LowerIdempotent(n);
          assert g.value == (tags + {Lower(n)}, Lower(n)) && TagOf(names[0]) == {Lower(n)};
          LinkAsWrittenAgrees(g.value.0, names[1..]);
        }
      }
    }
  }

  /** Over lower-case stored tags, the loop as written gets through when every stripped name is already lower-case. */
  lemma {:induction false} LowerNamesLink(tags: set<string>, names: seq<string>)
    requires forall t :: t in tags ==> IsLowered(t)
    requires forall i :: 0 <= i < |names| ==> IsLowered(Strip(names[i]))
    ensures LinkAsWritten(tags, names).Linked?
    decreases |names|
  {
    if names != [] {
      var n := Strip(names[0]);
      if n != [] {
        LowerIdempotent(n);
        var g := GetOrCreateTagAsWritten(tags, n);
        assert g.Success?;
        assert g.value.0 == tags + {n};
        LowerNamesLink(g.value.0, names[1..]);
      } else {
        LowerNamesLink(tags, names[1..]);
      }
    }
  }

  /**
   A name in a different case from a tag already stored, or from a tag an
   earlier name of the same request created, makes the loop as written break.
   */
  lemma {:induction false} LinkAsWrittenBreaks(tags: set<string>, names: seq<string>, i: nat)
    requires forall t :: t in tags ==> IsLowered(t)
    requires i < |names| && !IsLowered(Strip(names[i]))
    requires Lower(Strip(names[i])) in tags + KeptTags(names[..i])
    ensures LinkAsWritten(tags, names).Broke?
    decreases i
  {
    assert Clash(tags, names, i);
    var n := Strip(names[0]);
    BrokeStep(tags, names);
    if n == [] || GetOrCreateTagAsWritten(tags, n).Success? {
      HeadPasses(tags, names);
      ClashShift(tags, names, i);
      LinkAsWrittenBreaks(tags + TagOf(names[0]), names[1..], i - 1);
    }
  }

  /** One step of the loop as written: it breaks on the first name, or exactly when the rest breaks. */
  lemma BrokeStep(tags: set<string>, names: seq<string>)
    requires names != [] && forall t :: t in tags ==> IsLowered(t)
    ensures var n := Strip(names[0]);
            && (n != [] && GetOrCreateTagAsWritten(tags, n).Failure? ==> LinkAsWritten(tags, names).Broke?)
            && (n == [] || GetOrCreateTagAsWritten(tags, n).Success? ==>
                  && (LinkAsWritten(tags, names).Broke? <==> LinkAsWritten(tags + TagOf(names[0]), names[1..]).Broke?)
                  && (LinkAsWritten(tags, names).Broke? ==>
                        LinkAsWritten(tags, names).tags == LinkAsWritten(tags + TagOf(names[0]), names[1..]).tags))
  {
    var n := Strip(names[0]);
    if n != [] && GetOrCreateTagAsWritten(tags, n).Success? {
      GetOrCreateTagAgrees(tags, n);
      LowerIdempotent(n);
    }
  }

  lemma KeptTagsConsOf(head: string, tail: seq<string>)
    ensures KeptTags([head] + tail) == TagOf(head) + KeptTags(tail)
  {
    KeptTagsCons([head] + tail);
    assert ([head] + tail)[1..] == tail;
  }

  lemma KeptTagsPrefix(names: seq<string>, i: nat)
    requires 0 < i <= |names|
    ensures KeptTags(names[..i]) == TagOf(names[0]) + KeptTags(names[1..][..i - 1])
  {
    var tail := names[1..][..i - 1];
    assert names[..i] == [names[0]] + tail;
    KeptTagsConsOf(names[0], tail);
  }

  /**
   Name `i` clashes: stripped, it is not lower-case, and its lower-cased form
   is already stored or was created by an earlier name of the request.
   */
  predicate Clash(tags: set<string>, names: seq<string>, i: int) {
    0 <= i < |names| && !IsLowered(Strip(names[i])) && Lower(Strip(names[i])) in tags + KeptTags(names[..i])
  }

  /** Over lower-case stored tags, the loop as written breaks only on a clashing name. */
  lemma {:induction false} BreaksOnlyOnClash(tags: set<string>, names: seq<string>)
    requires forall t :: t in tags ==> IsLowered(t)
    ensures LinkAsWritten(tags, names).Broke? ==> exists i :: Clash(tags, names, i)
    decreases |names|
  {
    if names != [] && LinkAsWritten(tags, names).Broke? {
      var n := Strip(names[0]);
      var tags1 := tags + TagOf(names[0]);
      BrokeStep(tags, names);
      if n != [] && GetOrCreateTagAsWritten(tags, n).Failure? {
        LowerIdempotent(n);
        assert names[..0] == [];
        assert Clash(tags, names, 0);
      } else {
        if n != [] {
          LowerIdempotent(n);
          GetOrCreateTagAgrees(tags, n);
        }
        assert forall t :: t in tags1 ==> IsLowered(t);
        BreaksOnlyOnClash(tags1, names[1..]);
        var j :| Clash(tags1, names[1..], j);
        assert names[1..][j] == names[j + 1];
        KeptTagsPrefix(names, j + 1);
        assert Clash(tags, names, j + 1);
      }
    }
  }

  /** Name `i` is the first clashing name of the request. */
  predicate FirstClash(tags: set<string>, names: seq<string>, i: int) {
    Clash(tags, names, i) && forall j :: 0 <= j < i ==> !Clash(tags, names, j)
  }

  /**
   Over lower-case stored tags, a break happens at the first clashing name, and
   the tags left stored are exactly the old ones plus those of the names before
   it: each earlier lookup has already saved its row, and only the failing
   insert is undone.
   */
  lemma {:induction false} BrokeKeepsEarlierTags(tags: set<string>, names: seq<string>)
    requires forall t :: t in tags ==> IsLowered(t)
    ensures var r := LinkAsWritten(tags, names);
            r.Broke? ==> exists i :: FirstClash(tags, names, i) && r.tags == tags + KeptTags(names[..i])
    decreases |names|, 1
  {
    var r := LinkAsWritten(tags, names);
    if names != [] && r.Broke? {
      var n := Strip(names[0]);
      BrokeStep(tags, names);
      if n != [] && GetOrCreateTagAsWritten(tags, n).Failure? {
        LowerIdempotent(n);
        assert names[..0] == [];
        assert FirstClash(tags, names, 0);
      } else {
        BrokeLaterKeepsEarlierTags(tags, names);
      }
    }
  }

  /** The case of `BrokeKeepsEarlierTags` where the first name gets through. */
  lemma {:induction false} BrokeLaterKeepsEarlierTags(tags: set<string>, names: seq<string>)
    requires forall t :: t in tags ==> IsLowered(t)
    requires names != [] && LinkAsWritten(tags, names).Broke?
    requires Strip(names[0]) == [] || GetOrCreateTagAsWritten(tags, Strip(names[0])).Success?
    ensures exists i :: FirstClash(tags, names, i) && LinkAsWritten(tags, names).tags == tags + KeptTags(names[..i])
    decreases |names|, 0
  {
    var tags1 := tags + TagOf(names[0]);
    var rest := names[1..];
    HeadPasses(tags, names);
    BrokeKeepsEarlierTags(tags1, rest);
    var j :| FirstClash(tags1, rest, j) && LinkAsWritten(tags1, rest).tags == tags1 + KeptTags(rest[..j]);
    FirstClashShift(tags, names, j);
    StoredShift(tags, names, j, LinkAsWritten(tags, names).tags);
  }

  /** When the first name gets through, the rest of the loop runs over lower-case tags and decides the outcome. */
  lemma HeadPasses(tags: set<string>, names: seq<string>)
    requires forall t :: t in tags ==> IsLowered(t)
    requires names != []
    requires Strip(names[0]) == [] || GetOrCreateTagAsWritten(tags, Strip(names[0])).Success?
    ensures forall t :: t in tags + TagOf(names[0]) ==> IsLowered(t)
    ensures !Clash(tags, names, 0)
    ensures LinkAsWritten(tags, names).Broke? ==>
              && LinkAsWritten(tags + TagOf(names[0]), names[1..]).Broke?
              && LinkAsWritten(tags, names).tags == LinkAsWritten(tags + TagOf(names[0]), names[1..]).tags
  {
    var n := Strip(names[0]);
    BrokeStep(tags, names);
    if n != [] {
      LowerIdempotent(n);
      GetOrCreateTagAgrees(tags, n);
    }
    assert names[..0] == [];
  }

  /** A first clash after the first name, which does not clash itself, is the first clash of the whole request. */
  lemma FirstClashShift(tags: set<string>, names: seq<string>, j: nat)
    ensures j + 1 < |names| && !Clash(tags, names, 0) && FirstClash(tags + TagOf(names[0]), names[1..], j) ==>
              FirstClash(tags, names, j + 1)
  {
    if j + 1 < |names| && !Clash(tags, names, 0) && FirstClash(tags + TagOf(names[0]), names[1..], j) {
      ClashShift(tags, names, j + 1);
      forall k | 1 <= k < j + 1
        ensures !Clash(tags, names, k)
      {
        ClashShift(tags, names, k);
      }
    }
  }

  lemma StoredShift(tags: set<string>, names: seq<string>, j: nat, stored: set<string>)
    requires j + 1 <= |names|
    requires stored == tags + TagOf(names[0]) + KeptTags(names[1..][..j])
    ensures stored == tags + KeptTags(names[..j + 1])
  {
    KeptTagsPrefix(names, j + 1);
  }

  /** Name `k` of a request clashes exactly when it clashes as name `k - 1` once the first name has been linked. */
  lemma ClashShift(tags: set<string>, names: seq<string>, k: nat)
    requires 1 <= k < |names|
    ensures Clash(tags, names, k) <==> Clash(tags + TagOf(names[0]), names[1..], k - 1)
  {
    assert names[1..][k - 1] == names[k];
    KeptTagsPrefix(names, k);
  }

  /** The concrete case inside one request: "python" then "Python" on a fresh store. */
  lemma SameRequestCaseVariantBreaks()
    ensures LinkAsWritten({}, ["python", "Python"]) == Broke({"python"})
  {
    var names := ["python", "Python"];
    NoSpaceStrips("python");
    NoSpaceStrips("Python");
    LowerIdempotent("python");
    assert Lower("Python") == "python";
    assert names[1..][1..] == [];
  }

  /** `to_representation`: the post's fields, its tag names in name order, and its like count. */
  function Represent(s: Store, p: PostId): (v: PostView)
    requires p in s.posts
    ensures v.id == p && v.createdAt == p
    ensures |v.tags| == |s.posts[p].tags| && forall t :: t in v.tags <==> t in s.posts[p].tags
    ensures forall i, j :: 0 <= i < j < |v.tags| ==> Less(v.tags[i], v.tags[j])
    ensures v.likesCount == |Likes.Likers(s, p)|
  {
    Likes.LikesCountIsLikers(s, p);
    var post := s.posts[p];
    PostView(p, post.title, post.content, SortedNames(post.tags), post.category, p, Likes.LikesCount(s, p))
  }

  /**
   `create` through the post list endpoint: 401 for an anonymous requester,
   400 for a missing or unknown category. Otherwise the post row is saved with
   the requester as author and the trimmed title and content, and the tag loop
   runs: when it gets through, the tags are linked and the answer is 201 with
   the post's representation; when a lookup breaks the unique constraint, the
   answer is 500, and the post row and the tags created so far stay stored.
   */
  function CreatePost(s: Store, requester: Option<UserId>, input: PostInput): (r: Reply<PostView>)
    ensures !Authenticated(s, requester) ==> r == Reply(Unauthorized, None, s)
    ensures Authenticated(s, requester) && CheckCategory(input.category).Failure? ==>
              r == Reply(BadRequest(CheckCategory(input.category).error), None, s)
    ensures Authenticated(s, requester) && CheckCategory(input.category).Success? ==>
              && (r.status == Created || r.status == ServerError)
              && (r.status == Created <==> LinkAsWritten(s.tags, input.tags).Linked?)
    ensures r.status == Created || r.status == ServerError ==>
              var p := s.clock;
              && r.store == s.(posts := r.store.posts, tags := r.store.tags, clock := s.clock + 1)
              && r.store.posts.Keys == s.posts.Keys + {p}
              && (forall q :: q in s.posts && q != p ==> r.store.posts[q] == s.posts[q])
              && r.store.posts[p].author == requester.value
              && r.store.posts[p].title == Strip(input.title)
              && r.store.posts[p].content == Strip(input.content)
              && r.store.posts[p].category == input.category.value
              && s.tags <= r.store.tags
    ensures r.status == ServerError ==>
              && r.body.None? && r.store.posts[s.clock].tags == {}
              && r.store.tags == LinkAsWritten(s.tags, input.tags).tags
    ensures r.status == Created ==>
              var p := s.clock;
              && r.store.tags == s.tags + r.store.posts[p].tags
              && r.body == Some(Represent(r.store, p))
              && r.body.value.title == Strip(input.title) && r.body.value.content == Strip(input.content)
              && r.body.value.category == input.category.value
  {
    if !Authenticated(s, requester) then Reply(Unauthorized, None, s)
    else match CheckCategory(input.category)
      case Failure(e) => Reply(BadRequest(e), None, s)
      case Success(category) =>
        var p := s.clock;
        var row := Post(requester.value, Strip(input.title), Strip(input.content), category, {});
        match LinkAsWritten(s.tags, input.tags)
        case Broke(tags') =>
          Reply(ServerError, None, s.(posts := s.posts[p := row], tags := tags', clock := s.clock + 1))
        case Linked(tags', linked) =>
          var s' := s.(posts := s.posts[p := row.(tags := linked)], tags := tags', clock := s.clock + 1);
          Reply(Created, Some(Represent(s', p)), s')
  }

  /**
   Creating a post keeps the store valid whatever the answer; a created post
   is linked to exactly the kept tags, its representation lists them once
   each, and it has no likes yet.
   */
  lemma CreatePostKeepsValid(s: Store, requester: Option<UserId>, input: PostInput)
    requires Valid(s)
    ensures var r := CreatePost(s, requester, input);
            && Valid(r.store)
            && (r.status == Created ==>
                  && r.store.posts[s.clock].tags == KeptTags(input.tags)
                  && r.store.tags == s.tags + KeptTags(input.tags)
                  && (forall t :: t in r.body.value.tags <==> t in KeptTags(input.tags))
                  && |r.body.value.tags| == |KeptTags(input.tags)|
                  && r.body.value.likesCount == 0)
  {
    var r := CreatePost(s, requester, input);
    if r.status == Created || r.status == ServerError {
      LinkAsWrittenAgrees(s.tags, input.tags);
      forall t | t in KeptTags(input.tags)
        ensures IsLowered(t)
      {
        var n :| n in input.tags && Strip(n) != [] && Lower(Strip(n)) == t;
        LowerIdempotent(Strip(n));
      }
      AddPostKeepsValid(s, r.store.posts[s.clock], r.store.tags);
      if r.status == Created {
        NewPostHasNoLikes(s);
        assert Likes.LikesCount(r.store, s.clock) == Likes.LikesCount(s, s.clock);
      }
    }
  }

  /**
   With "python" stored, a post asking for the tag "Python" is answered 500,
   yet its row stays stored, without tags.
   */
  lemma CaseVariantTagAnswers500(s: Store, u: UserId, input: PostInput)
    requires Valid(s) && u in s.users && "python" in s.tags
    requires input.category.Some? && input.category.value in Categories && input.tags == ["Python"]
    ensures var r := CreatePost(s, Some(u), input);
            && r.status == ServerError
            && s.clock in r.store.posts && r.store.posts[s.clock].tags == {}
  {
    var names := input.tags;
    NoSpaceStrips("Python");
    assert Lower("Python") == "python";
    assert names[..0] == [];
    LinkAsWrittenBreaks(s.tags, names, 0);
  }

  /**
   In a valid store, a 500 from post creation leaves exactly the old tags plus
   those of the requested names before the first clashing one.
   */
  lemma FailedPostKeepsEarlierTags(s: Store, requester: Option<UserId>, input: PostInput)
    requires Valid(s)
    ensures var r := CreatePost(s, requester, input);
            r.status == ServerError ==>
              exists i :: FirstClash(s.tags, input.tags, i) && r.store.tags == s.tags + KeptTags(input.tags[..i])
  {
    BrokeKeepsEarlierTags(s.tags, input.tags);
  }

  /** No like can name the post id the clock hands out next. */
  lemma NewPostHasNoLikes(s: Store)
    requires Valid(s)
    ensures Likes.LikesCount(s, s.clock) == 0
  {
    assert (set l | l in s.likes && l.1 == s.clock) == {};
  }

  /** The comments to delete with post `p`: those on the post itself (their replies follow through the cascade). */
  function CommentsOf(cs: Arena, p: PostId): set<CommentId> {
    set k | k in cs && cs[k].post == p
  }

  /**
   `destroy` on a post: 401 for an anonymous requester, 404 for a missing
   post, 403 for anyone but the author; otherwise the post goes, with its
   likes, its comments and every reply below them, and the answer is 204.
   Tags stay: they are shared between posts.
   */
  function DestroyPost(s: Store, requester: Option<UserId>, p: PostId): (r: Reply<PostView>)
    ensures r.body.None?
    ensures r.status != NoContent ==> r.store == s
    ensures !Authenticated(s, requester) ==> r.status == Unauthorized
    ensures Authenticated(s, requester) && p !in s.posts ==> r.status == NotFound
    ensures Authenticated(s, requester) && p in s.posts && s.posts[p].author != requester.value ==>
              r.status == Forbidden(PermissionDenied)
    ensures r.status == NoContent <==> Authenticated(s, requester) && p in s.posts && s.posts[p].author == requester.value
    ensures r.status == NoContent ==>
              && r.store == s.(posts := r.store.posts, comments := r.store.comments, likes := r.store.likes)
              && r.store.posts == s.posts - {p}
              && (forall k :: k in r.store.comments ==> k in s.comments && r.store.comments[k] == s.comments[k])
              && (forall k :: k in r.store.comments ==> r.store.comments[k].post != p)
              && (forall k :: k in r.store.comments <==>
                    k in s.comments && forall c :: c in s.comments && s.comments[c].post == p ==> !Below(s.comments, k, c))
              && (forall l :: l in r.store.likes <==> l in s.likes && l.1 != p)
  {
    if !Authenticated(s, requester) then Reply(Unauthorized, None, s)
    else if p !in s.posts then Reply(NotFound, None, s)
    else if s.posts[p].author != requester.value then Reply(Forbidden(PermissionDenied), None, s)
    else
      var cs := Cascade(s.comments, CommentsOf(s.comments, p));
      Reply(NoContent, None, s.(posts := s.posts - {p}, comments := cs, likes := set l | l in s.likes && l.1 != p))
  }

  /** Deleting a post leaves no comment or like pointing at a missing post or parent. */
  lemma DestroyPostKeepsValid(s: Store, requester: Option<UserId>, p: PostId)
    requires Valid(s)
    ensures Valid(DestroyPost(s, requester, p).store)
  {
    var r := DestroyPost(s, requester, p);
    if r.status == NoContent {
      CascadeKeepsArena(s.comments, s.clock, CommentsOf(s.comments, p));
      DropPostKeepsValid(s, p, r.store);
    }
  }

  /** Comment `k` lies in none of the threads of post `p`'s comments, as tree order lists them. */
  predicate OutsideThreads(cs: Arena, bound: nat, p: PostId, k: CommentId) {
    forall c :: c in cs && c < bound && cs[c].post == p ==> k !in Preorder(cs, c, bound)
  }

  /**
   In a valid store, the author's delete removes exactly the threads of the
   post's comments, as listed in tree order, and keeps every other comment.
   */
  lemma DestroyPostRemovesThreads(s: Store, requester: Option<UserId>, p: PostId)
    requires Valid(s)
    ensures var r := DestroyPost(s, requester, p);
            r.status == NoContent ==>
              forall k :: k in r.store.comments <==> k in s.comments && OutsideThreads(s.comments, s.clock, p, k)
  {
    var r := DestroyPost(s, requester, p);
    if r.status == NoContent {
      var roots := CommentsOf(s.comments, p);
      assert r.store.comments == Cascade(s.comments, roots);
      forall k
        ensures k in r.store.comments <==> k in s.comments && OutsideThreads(s.comments, s.clock, p, k)
      {
        PostCascadeAt(s.comments, s.clock, p, k);
      }
    }
  }

  lemma PostCascadeAt(cs: Arena, bound: nat, p: PostId, k: CommentId)
    requires ArenaValid(cs, bound)
    ensures k in Cascade(cs, CommentsOf(cs, p)) <==> k in cs && OutsideThreads(cs, bound, p, k)
  {
    var roots := CommentsOf(cs, p);
    CascadeRemovesSubtreesAt(cs, bound, roots, k);
    assert forall c :: c in roots <==> c in cs && cs[c].post == p;
  }

  lemma DropPostKeepsValid(s: Store, p: PostId, t: Store)
    requires Valid(s)
    requires t == s.(posts := s.posts - {p}, comments := t.comments, likes := t.likes)
    requires ArenaValid(t.comments, t.clock)
    requires forall k :: k in t.comments ==> k in s.comments && t.comments[k] == s.comments[k]
    requires forall k :: k in t.comments ==> t.comments[k].post != p
    requires forall l :: l in t.likes <==> l in s.likes && l.1 != p
    ensures Valid(t)
  {
    forall k | k in t.comments
      ensures t.comments[k].post in t.posts && t.comments[k].author in t.users
    {
      assert s.comments[k].post in s.posts;
    }
  }

  /** Adding post `p` at the clock, with its tags among the stored (lower-cased) tags, keeps the store valid. */
  lemma AddPostKeepsValid(s: Store, post: Post, tags: set<string>)
    requires Valid(s)
    requires post.author in s.users && post.category in Categories && post.tags <= tags
    requires s.tags <= tags && forall t :: t in tags ==> IsLowered(t)
    ensures Valid(s.(posts := s.posts[s.clock := post], tags := tags, clock := s.clock + 1))
  {
  }
}
