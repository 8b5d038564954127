/**
 The comment tree (django-mptt's `Comment` in blog/models.py): an arena of
 comments keyed by id, each pointing at its parent. This module holds the
 queries the views and serializers use on it: the children of a comment in
 creation order (`get_children` with `order_insertion_by = ['created_at']`),
 the nested `replies` view (`CommentSerializer.get_replies`), the tree order
 in which a queryset of comments is listed, and the cascade that a delete
 sets off through the `parent` foreign key.
 */
module CommentTree {
  import opened Store

  type Arena = map<CommentId, Comment>

  /** The serialised comment: `id`, `content`, `parent` and the nested `replies`; the id doubles as `created_at`. */
  datatype CommentView = CommentView(id: CommentId, content: string, parent: Option<CommentId>, replies: seq<CommentView>)

  /** The ids of a view's direct replies, in the order they are listed. */
  function ReplyIds(v: CommentView): (r: seq<CommentId>)
    ensures |r| == |v.replies|
  {
    seq(|v.replies|, i requires 0 <= i < |v.replies| => v.replies[i].id)
  }

  predicate NoDup<T(==)>(r: seq<T>) {
    forall i, j :: 0 <= i < j < |r| ==> r[i] != r[j]
  }

  /** The head and every element of the tail of a non-empty sequence are members of it. */
  lemma TailIn<T>(ks: seq<T>)
    requires ks != []
    ensures ks[0] in ks
    ensures forall k :: k in ks[1..] ==> k in ks
  {
    assert ks == [ks[0]] + ks[1..];
  }

  /** The ids in `[lo, hi)` whose comment hangs under `parent` (the roots when `parent` is `None`), oldest first. */
  function Under(cs: Arena, parent: Option<CommentId>, lo: nat, hi: nat): (r: seq<CommentId>)
    ensures forall k :: k in r <==> lo <= k < hi && k in cs && cs[k].parent == parent
    ensures forall i, j :: 0 <= i < j < |r| ==> r[i] < r[j]
    decreases hi - lo
  {
    if lo >= hi then []
    else
      var rest := Under(cs, parent, lo + 1, hi);
      assert forall k :: k in rest ==> lo < k;
      assert forall j :: 0 <= j < |rest| ==> rest[j] in rest;
      if lo in cs && cs[lo].parent == parent then [lo] + rest else rest
  }

  /** `get_children()`: the direct replies of `c`, oldest first. */
  function Children(cs: Arena, c: CommentId, bound: nat): (r: seq<CommentId>)
    ensures ArenaValid(cs, bound) ==>
              forall k :: k in r <==> k in cs && cs[k].parent == Some(c)
    ensures forall k :: k in r ==> k in cs && c < k < bound
    ensures forall i, j :: 0 <= i < j < |r| ==> r[i] < r[j]
  {
    Under(cs, Some(c), c + 1, bound)
  }

  /** The root comments (no parent), oldest first. */
  function Roots(cs: Arena, bound: nat): (r: seq<CommentId>)
    ensures ArenaValid(cs, bound) ==>
              forall k :: k in r <==> k in cs && cs[k].parent.None?
    ensures forall k :: k in r ==> k in cs && k < bound
    ensures forall i, j :: 0 <= i < j < |r| ==> r[i] < r[j]
  {
    Under(cs, None, 0, bound)
  }

  /** `CommentSerializer(c).data`: the comment with its replies, each serialised the same way. */
  function Thread(cs: Arena, c: CommentId, bound: nat): (v: CommentView)
    requires c in cs
    ensures v.id == c && v.content == cs[c].content && v.parent == cs[c].parent
    ensures var ks := Children(cs, c, bound);
            |v.replies| == |ks| && forall i :: 0 <= i < |ks| ==> v.replies[i] == Thread(cs, ks[i], bound)
    decreases if c < bound then bound - c else 0, 1
  {
    CommentView(c, cs[c].content, cs[c].parent, Threads(cs, Children(cs, c, bound), bound, c))
  }

  /** The serialisations of `ks`, in the same order. */
  function Threads(cs: Arena, ks: seq<CommentId>, bound: nat, lo: int): (vs: seq<CommentView>)
    requires forall k :: k in ks ==> k in cs && lo < k < bound
    ensures |vs| == |ks| && forall i :: 0 <= i < |ks| ==> vs[i] == Thread(cs, ks[i], bound)
    decreases if lo < bound then bound - lo else 0, 0, |ks|
  {
    seq(|ks|, i requires 0 <= i < |ks| => Thread(cs, ks[i], bound))
  }

  /** `x` is `c` or lies somewhere in the subtree of replies under `c`. */
  predicate Below(cs: Arena, x: CommentId, c: CommentId)
    decreases x
  {
    x == c || (x in cs && cs[x].parent.Some? && cs[x].parent.value < x && Below(cs, cs[x].parent.value, c))
  }

  /** `x` lies in the subtree of one of `ks`. */
  predicate BelowSome(cs: Arena, x: CommentId, ks: seq<CommentId>) {
    exists k :: k in ks && Below(cs, x, k)
  }

  /** The view of a comment never nests deeper than `n` levels. */
  predicate DepthAtMost(v: CommentView, n: nat)
    decreases v
  {
    n >= 1 && forall i :: 0 <= i < |v.replies| ==> DepthAtMost(v.replies[i], n - 1)
  }

  /** `c` followed by its subtree in tree order: each reply's subtree, oldest reply first. */
  function Preorder(cs: Arena, c: CommentId, bound: nat): (r: seq<CommentId>)
    requires c in cs && c < bound
    decreases bound - c, 1
  {
    [c] + PreorderAll(cs, Children(cs, c, bound), bound, c)
  }

  function PreorderAll(cs: Arena, ks: seq<CommentId>, bound: nat, lo: int): (r: seq<CommentId>)
    requires forall k :: k in ks ==> k in cs && lo < k < bound
    decreases bound - lo, 0, |ks|
  {
    if ks == [] then []
    else
      TailIn(ks);
      Preorder(cs, ks[0], bound) + PreorderAll(cs, ks[1..], bound, lo)
  }

  /** Every comment in django-mptt's tree order: the trees in creation order of their roots, each in pre-order. */
  function Forest(cs: Arena, bound: nat): (r: seq<CommentId>)
    ensures forall k :: k in r ==> k in cs && k < bound
  {
    PreorderAllBelow(cs, Roots(cs, bound), bound, -1);
    PreorderAll(cs, Roots(cs, bound), bound, -1)
  }

  lemma {:induction false} PreorderBelow(cs: Arena, c: CommentId, bound: nat)
    requires c in cs && c < bound
    ensures forall k :: k in Preorder(cs, c, bound) ==> k in cs && c <= k < bound
    decreases bound - c, 1
  {
    PreorderAllBelow(cs, Children(cs, c, bound), bound, c);
  }

  lemma {:induction false} PreorderAllBelow(cs: Arena, ks: seq<CommentId>, bound: nat, lo: int)
    requires forall k :: k in ks ==> k in cs && lo < k < bound
    ensures forall k :: k in PreorderAll(cs, ks, bound, lo) ==> k in cs && lo < k < bound
    decreases bound - lo, 0, |ks|
  {
    if ks != [] {
      TailIn(ks);
      PreorderBelow(cs, ks[0], bound);
      PreorderAllBelow(cs, ks[1..], bound, lo);
    }
  }

  /**
   Deleting the comments in `roots` deletes, through the `parent` cascade,
   everything below them. Locally: a comment goes exactly when it is one of
   `roots` or its (older) parent went; every other comment stays as it was.
   */
  function Cascade(cs: Arena, roots: set<CommentId>): (r: Arena)
    ensures forall x :: x in r ==> x in cs && r[x] == cs[x]
    ensures forall x :: x in cs ==>
              (x !in r <==> x in roots || (cs[x].parent.Some? && cs[x].parent.value < x && Gone(cs, r, roots, cs[x].parent.value)))
  {
    var r := map x | x in cs && !(exists c :: c in roots && Below(cs, x, c)) :: cs[x];
    CascadeStep(cs, roots, r);
    r
  }

  /** Comment `p` is not left after deleting `roots` from `cs` into `r`. */
  predicate Gone(cs: Arena, r: Arena, roots: set<CommentId>, p: CommentId) {
    p in roots || (p in cs && p !in r)
  }

  lemma CascadeStep(cs: Arena, roots: set<CommentId>, r: Arena)
    requires forall x :: x in r <==> x in cs && !(exists c :: c in roots && Below(cs, x, c))
    ensures forall x :: x in cs ==>
              (x !in r <==> x in roots || (cs[x].parent.Some? && cs[x].parent.value < x && Gone(cs, r, roots, cs[x].parent.value)))
  {
    forall x | x in cs
      ensures x !in r <==> x in roots || (cs[x].parent.Some? && cs[x].parent.value < x && Gone(cs, r, roots, cs[x].parent.value))
    {
      if x !in r && x !in roots {
        var c :| c in roots && Below(cs, x, c);
        assert x != c && Below(cs, x, c);
        var p := cs[x].parent.value;
        assert Below(cs, p, c);
        if p !in cs {
          assert p == c;
        }
      }
      if cs[x].parent.Some? && cs[x].parent.value < x {
        var p := cs[x].parent.value;
        if p in roots {
          assert Below(cs, x, p);
        } else if p in cs && p !in r {
          var c :| c in roots && Below(cs, p, c);
          assert Below(cs, x, c);
        }
      }
      if x in roots {
        assert Below(cs, x, x);
      }
    }
  }

  // ---------------------------------------------------------------------------
  // Lemmas about the replies view

  /**
   The replies of a comment are exactly its direct children, oldest first, each
   serialised in turn; a comment nobody answered has the empty list.
   */
  lemma RepliesAreChildren(cs: Arena, c: CommentId, bound: nat)
    requires ArenaValid(cs, bound) && c in cs
    ensures ReplyIds(Thread(cs, c, bound)) == Children(cs, c, bound)
    ensures Thread(cs, c, bound).replies == [] <==> forall k :: k in cs ==> cs[k].parent != Some(c)
  {
    var v := Thread(cs, c, bound);
    var ks := Children(cs, c, bound);
    assert ReplyIds(v) == ks;
    if v.replies != [] {
      TailIn(ks);
    }
  }

  /** The nested view of a comment at level `l` is at most `3 - l` deep, so no view nests past three levels. */
  lemma {:induction false} ThreadDepth(cs: Arena, c: CommentId, bound: nat)
    requires ArenaValid(cs, bound) && c in cs
    ensures DepthAtMost(Thread(cs, c, bound), 3 - cs[c].level)
    decreases bound - c
  {
    var v := Thread(cs, c, bound);
    var ks := Children(cs, c, bound);
    forall i | 0 <= i < |v.replies|
      ensures DepthAtMost(v.replies[i], 3 - cs[c].level - 1)
    {
      assert ks[i] in cs && cs[ks[i]].parent == Some(c);
      assert ParentOk(cs, ks[i]);
      ThreadDepth(cs, ks[i], bound);
    }
  }

  // ---------------------------------------------------------------------------
  // Lemmas about ancestry

  lemma {:induction false} BelowOrder(cs: Arena, x: CommentId, c: CommentId)
    requires Below(cs, x, c)
    ensures c <= x
    decreases x
  {
    if x != c {
      BelowOrder(cs, cs[x].parent.value, c);
    }
  }

  /** Anything below a reply of `c` is below `c`. */
  lemma {:induction false} BelowParent(cs: Arena, x: CommentId, k: CommentId, c: CommentId)
    requires k in cs && cs[k].parent == Some(c) && c < k
    requires Below(cs, x, k)
    ensures Below(cs, x, c)
    decreases x
  {
    if x != k {
      BelowParent(cs, cs[x].parent.value, k, c);
    }
  }

  /** A proper descendant of `c` lies below one of `c`'s direct replies. */
  lemma {:induction false} StepDown(cs: Arena, x: CommentId, c: CommentId) returns (k: CommentId)
    requires Below(cs, x, c) && x != c
    ensures k in cs && cs[k].parent == Some(c) && Below(cs, x, k)
    decreases x
  {
    var p := cs[x].parent.value;
    if p == c {
      k := x;
    } else {
      k := StepDown(cs, p, c);
    }
  }

  /** The ancestors of a comment form a chain. */
  lemma {:induction false} AncestorsLinear(cs: Arena, x: CommentId, a: CommentId, b: CommentId)
    requires Below(cs, x, a) && Below(cs, x, b)
    ensures Below(cs, a, b) || Below(cs, b, a)
    decreases x
  {
    if x != a && x != b {
      AncestorsLinear(cs, cs[x].parent.value, a, b);
    }
  }

  /** Two different comments with the same parent (or two different roots) have no common descendant. */
  lemma SiblingsApart(cs: Arena, bound: nat, x: CommentId, a: CommentId, b: CommentId)
    requires ArenaValid(cs, bound)
    requires a in cs && b in cs && a != b && cs[a].parent == cs[b].parent
    ensures !(Below(cs, x, a) && Below(cs, x, b))
  {
    if !(Below(cs, x, a) && Below(cs, x, b)) {
      return;
    }
    AncestorsLinear(cs, x, a, b);
    if Below(cs, a, b) {
      assert ParentOk(cs, b);
      BelowOrder(cs, cs[a].parent.value, b);
    } else {
      assert ParentOk(cs, a);
      BelowOrder(cs, cs[b].parent.value, a);
    }
  }

  /** Following parents from any comment ends at a root. */
  lemma {:induction false} RootOf(cs: Arena, bound: nat, x: CommentId) returns (r: CommentId)
    requires ArenaValid(cs, bound) && x in cs
    ensures r in cs && cs[r].parent.None? && Below(cs, x, r)
    decreases x
  {
    assert ParentOk(cs, x);
    if cs[x].parent.None? {
      r := x;
    } else {
      r := RootOf(cs, bound, cs[x].parent.value);
    }
  }

  // ---------------------------------------------------------------------------
  // Lemmas about tree order

  lemma {:induction false} PreorderMembers(cs: Arena, c: CommentId, bound: nat)
    requires ArenaValid(cs, bound) && c in cs
    ensures forall x :: x in Preorder(cs, c, bound) <==> x in cs && Below(cs, x, c)
    decreases bound - c, 1
  {
    var ks := Children(cs, c, bound);
    PreorderAllMembers(cs, ks, bound, c);
    forall x | x in cs && Below(cs, x, c)
      ensures x in Preorder(cs, c, bound)
    {
      if x != c {
        var k := StepDown(cs, x, c);
        assert ParentOk(cs, k);
        assert k in ks;
        assert BelowSome(cs, x, ks);
      }
    }
    forall x | x in PreorderAll(cs, ks, bound, c)
      ensures Below(cs, x, c)
    {
      assert BelowSome(cs, x, ks);
      var k :| k in ks && Below(cs, x, k);
      BelowParent(cs, x, k, c);
    }
  }

  lemma {:induction false} PreorderAllMembers(cs: Arena, ks: seq<CommentId>, bound: nat, lo: int)
    requires ArenaValid(cs, bound)
    requires forall k :: k in ks ==> k in cs && lo < k < bound
    ensures forall x :: x in PreorderAll(cs, ks, bound, lo) <==> x in cs && BelowSome(cs, x, ks)
    decreases bound - lo, 0, |ks|
  {
    if ks != [] {
      TailIn(ks);
      var head := Preorder(cs, ks[0], bound);
      var tail := PreorderAll(cs, ks[1..], bound, lo);
      assert PreorderAll(cs, ks, bound, lo) == head + tail;
      PreorderMembers(cs, ks[0], bound);
      PreorderAllMembers(cs, ks[1..], bound, lo);
      forall x | x in cs && BelowSome(cs, x, ks)
        ensures x in head + tail
      {
        var k :| k in ks && Below(cs, x, k);
        if k != ks[0] {
          assert k in ks[1..];
          assert BelowSome(cs, x, ks[1..]);
        }
      }
      forall x | x in head + tail
        ensures x in cs && BelowSome(cs, x, ks)
      {
        if x in head {
          assert Below(cs, x, ks[0]);
        } else {
          assert BelowSome(cs, x, ks[1..]);
          var k :| k in ks[1..] && Below(cs, x, k);
          assert k in ks;
        }
      }
    }
  }

  lemma NoDupConcat<T>(a: seq<T>, b: seq<T>)
    requires NoDup(a) && NoDup(b)
    requires forall x :: x in a ==> x !in b
    ensures NoDup(a + b)
  {
    forall i, j | 0 <= i < j < |a + b|
      ensures (a + b)[i] != (a + b)[j]
    {
      if i < |a| && j >= |a| {
        assert (a + b)[i] in a && (a + b)[j] in b;
      }
    }
  }

  lemma {:induction false} PreorderDistinct(cs: Arena, c: CommentId, bound: nat)
    requires ArenaValid(cs, bound) && c in cs
    ensures NoDup(Preorder(cs, c, bound))
    decreases bound - c, 1
  {
    var ks := Children(cs, c, bound);
    PreorderAllDistinct(cs, ks, bound, c, Some(c));
    PreorderAllMembers(cs, ks, bound, c);
    forall x | x in PreorderAll(cs, ks, bound, c)
      ensures x != c
    {
      assert BelowSome(cs, x, ks);
      var k :| k in ks && Below(cs, x, k);
      BelowOrder(cs, x, k);
    }
    NoDupConcat([c], PreorderAll(cs, ks, bound, c));
  }

  lemma {:induction false} PreorderAllDistinct(cs: Arena, ks: seq<CommentId>, bound: nat, lo: int, parent: Option<CommentId>)
    requires ArenaValid(cs, bound)
    requires forall k :: k in ks ==> k in cs && lo < k < bound && cs[k].parent == parent
    requires forall i, j :: 0 <= i < j < |ks| ==> ks[i] < ks[j]
    ensures NoDup(PreorderAll(cs, ks, bound, lo))
    decreases bound - lo, 0, |ks|
  {
    if ks != [] {
      TailIn(ks);
      PreorderDistinct(cs, ks[0], bound);
      PreorderAllDistinct(cs, ks[1..], bound, lo, parent);
      PreorderMembers(cs, ks[0], bound);
      PreorderAllMembers(cs, ks[1..], bound, lo);
      forall x | x in Preorder(cs, ks[0], bound)
        ensures x !in PreorderAll(cs, ks[1..], bound, lo)
      {
        if x in PreorderAll(cs, ks[1..], bound, lo) {
          assert BelowSome(cs, x, ks[1..]);
          var k :| k in ks[1..] && Below(cs, x, k);
          var j :| 0 <= j < |ks[1..]| && ks[1..][j] == k;
          assert ks[0] < ks[j + 1];
          SiblingsApart(cs, bound, x, ks[0], k);
        }
      }
      NoDupConcat(Preorder(cs, ks[0], bound), PreorderAll(cs, ks[1..], bound, lo));
    }
  }

  /** Tree order lists every comment of the arena, and each exactly once. */
  lemma ForestExact(cs: Arena, bound: nat)
    requires ArenaValid(cs, bound)
    ensures forall x :: x in Forest(cs, bound) <==> x in cs
    ensures NoDup(Forest(cs, bound))
  {
    var rs := Roots(cs, bound);
    PreorderAllMembers(cs, rs, bound, -1);
    PreorderAllDistinct(cs, rs, bound, -1, None);
    forall x | x in cs
      ensures x in Forest(cs, bound)
    {
      var r := RootOf(cs, bound, x);
      assert r in rs;
      assert BelowSome(cs, x, rs);
    }
  }

  // ---------------------------------------------------------------------------
  // Lemmas about the cascade

  /** The cascade leaves no comment whose parent is gone, and keeps levels intact. */
  lemma CascadeKeepsArena(cs: Arena, bound: nat, roots: set<CommentId>)
    requires ArenaValid(cs, bound)
    ensures ArenaValid(Cascade(cs, roots), bound)
    ensures forall c :: c in roots ==> c !in Cascade(cs, roots)
  {
    var r := Cascade(cs, roots);
    forall x | x in r
      ensures ParentOk(r, x)
    {
      assert ParentOk(cs, x);
    }
  }

  /** Within a valid arena, a comment lies below only comments of the arena. */
  lemma {:induction false} BelowInArena(cs: Arena, bound: nat, x: CommentId, c: CommentId)
    requires ArenaValid(cs, bound) && x in cs && Below(cs, x, c)
    ensures c in cs
    decreases x
  {
    if x != c {
      assert ParentOk(cs, x);
      BelowInArena(cs, bound, cs[x].parent.value, c);
    }
  }

  /** Deleting a set of comments removes exactly their subtrees, as listed in tree order, and keeps every other comment. */
  lemma CascadeRemovesSubtrees(cs: Arena, bound: nat, roots: set<CommentId>)
    requires ArenaValid(cs, bound)
    ensures forall x :: x in Cascade(cs, roots) <==>
              x in cs && forall c :: c in roots && c in cs ==> x !in Preorder(cs, c, bound)
  {
    forall x
      ensures x in Cascade(cs, roots) <==> x in cs && forall c :: c in roots && c in cs ==> x !in Preorder(cs, c, bound)
    {
      CascadeRemovesSubtreesAt(cs, bound, roots, x);
    }
  }

  lemma CascadeRemovesSubtreesAt(cs: Arena, bound: nat, roots: set<CommentId>, x: CommentId)
    requires ArenaValid(cs, bound)
    ensures x in Cascade(cs, roots) <==> x in cs && forall c :: c in roots && c in cs ==> x !in Preorder(cs, c, bound)
  {
    var r := Cascade(cs, roots);
    if x in cs && x !in r {
      var c :| c in roots && Below(cs, x, c);
      BelowInArena(cs, bound, x, c);
      PreorderMembers(cs, c, bound);
    }
    if x in r {
      forall c | c in roots && c in cs
        ensures x !in Preorder(cs, c, bound)
      {
        PreorderMembers(cs, c, bound);
      }
    }
  }

  /** Deleting one comment removes exactly its subtree, as listed in tree order; every other comment stays. */
  lemma DeleteRemovesSubtree(cs: Arena, bound: nat, c: CommentId)
    requires ArenaValid(cs, bound) && c in cs
    ensures forall x :: x in Preorder(cs, c, bound) ==> x !in Cascade(cs, {c})
    ensures forall x :: x in cs && x !in Preorder(cs, c, bound) ==> x in Cascade(cs, {c})
  {
    PreorderMembers(cs, c, bound);
  }
}
