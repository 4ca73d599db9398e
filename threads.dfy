/** Comment threading as CommentSerializer sees it: the bounded ancestor walk
    of validate_parent_comment, and the recursive `replies` field built by
    get_replies. */
module Threads {
  import opened Common
  import opened Records
  import opened Cascade

  /** The parent_comment foreign key: every parent is a stored comment.
      Nothing here rules out a cycle of parent links. */
  ghost predicate ParentsStored(comments: map<CommentId, Comment>)
  {
    forall c :: c in comments && comments[c].parent.Some? ==> comments[c].parent.value in comments
  }

  /** The comment reached from `c` by following parent_comment `k` times, if
      the chain is that long. Defined on any table, cyclic or not. */
  function AncestorAt(comments: map<CommentId, Comment>, c: CommentId, k: nat): Option<CommentId>
    decreases k
  {
    if k == 0 then Some(c)
    else if c in comments && comments[c].parent.Some? then AncestorAt(comments, comments[c].parent.value, k - 1)
    else None
  }

  /** One more step up the chain is one parent link from the k-th ancestor. */
  lemma {:induction false} AncestorStep(comments: map<CommentId, Comment>, c: CommentId, k: nat)
    ensures AncestorAt(comments, c, k + 1) ==
      match AncestorAt(comments, c, k)
      case None => None
      case Some(a) => if a in comments && comments[a].parent.Some? then Some(comments[a].parent.value) else None
    decreases k
  {
    if k > 0 && c in comments && comments[c].parent.Some? {
      AncestorStep(comments, comments[c].parent.value, k - 1);
    }
  }

  datatype DepthError = DepthExceeded

  /** validate_parent_comment: a parent with no ancestor or one ancestor is
      accepted and returned unchanged; one with two or more is refused. The
      walk takes at most two steps (decreases 3 - level), so it ends even if
      parent links formed a cycle. */
  method ValidateParentComment(comments: map<CommentId, Comment>, value: Option<CommentId>)
    returns (r: Result<Option<CommentId>, DepthError>)
    requires ParentsStored(comments)
    requires value.Some? ==> value.value in comments
    ensures r.Ok? <==> value.None? || AncestorAt(comments, value.value, 2).None?
    ensures r.Ok? ==> r.value == value
  {
    if value.Some? {
      var level := 1;
      var parent := value.value;
      while comments[parent].parent.Some?
        invariant 1 <= level <= 2
        invariant parent in comments
        invariant AncestorAt(comments, value.value, level - 1) == Some(parent)
        decreases 3 - level
      {
        AncestorStep(comments, value.value, level - 1);
        level := level + 1;
        parent := comments[parent].parent.value;
        if level >= 3 {
          return Err(DepthExceeded);
        }
      }
      AncestorStep(comments, value.value, level - 1);
      AncestorStep(comments, value.value, 1);
    }
    return Ok(value);
  }

  /** The number of ancestors of a comment, in a table whose parent links
      point to older comments. */
  ghost function AncestorCount(comments: map<CommentId, Comment>, c: CommentId): nat
    requires ParentLinksValid(comments)
    decreases c
  {
    if c in comments && comments[c].parent.Some? then 1 + AncestorCount(comments, comments[c].parent.value) else 0
  }

  /** The nesting level of a comment: 1 for a top-level comment. */
  ghost function Depth(comments: map<CommentId, Comment>, c: CommentId): nat
    requires ParentLinksValid(comments)
  {
    1 + AncestorCount(comments, c)
  }

  /** On an acyclic table the k-th ancestor exists exactly when the comment has
      at least k ancestors. */
  lemma {:induction false} AncestorAtCount(comments: map<CommentId, Comment>, c: CommentId, k: nat)
    requires ParentLinksValid(comments)
    ensures AncestorAt(comments, c, k).Some? <==> k <= AncestorCount(comments, c)
    decreases k
  {
    if k > 0 && c in comments && comments[c].parent.Some? {
      AncestorAtCount(comments, comments[c].parent.value, k - 1);
    }
  }

  /** The parent check accepts a parent exactly when the new reply would sit
      at depth 3 or less. */
  lemma ParentCheckMeansDepth(comments: map<CommentId, Comment>, p: CommentId)
    requires ParentLinksValid(comments)
    ensures AncestorAt(comments, p, 2).None? <==> Depth(comments, p) + 1 <= 3
  {
    AncestorAtCount(comments, p, 2);
  }

  /** Every stored comment is at depth 3 or less. */
  ghost predicate NestingWithinThree(comments: map<CommentId, Comment>)
    requires ParentLinksValid(comments)
  {
    forall c :: c in comments ==> Depth(comments, c) <= 3
  }

  /** Adding a comment under a fresh id does not change the ancestors of the others. */
  lemma {:induction false} AncestorCountAfterInsert(comments: map<CommentId, Comment>, n: CommentId, row: Comment, c: CommentId)
    requires ParentLinksValid(comments) && ParentLinksValid(comments[n := row]) && KeysBelow(comments, n)
    requires c in comments
    ensures AncestorCount(comments[n := row], c) == AncestorCount(comments, c)
    decreases c
  {
    var m := comments[n := row];
    assert m[c] == comments[c];
    if comments[c].parent.Some? {
      AncestorCountAfterInsert(comments, n, row, comments[c].parent.value);
    }
  }

  /** A reply accepted by the parent check keeps every comment at depth 3 or less. */
  lemma ReplyKeepsNesting(comments: map<CommentId, Comment>, n: CommentId, row: Comment)
    requires ParentLinksValid(comments) && KeysBelow(comments, n) && NestingWithinThree(comments)
    requires row.parent.Some? ==> row.parent.value in comments && AncestorAt(comments, row.parent.value, 2).None?
    ensures ParentLinksValid(comments[n := row]) && NestingWithinThree(comments[n := row])
  {
    var m := comments[n := row];
    ParentLinksAfterInsert(comments, n, row);
    forall c | c in m ensures Depth(m, c) <= 3 {
      if c == n {
        if row.parent.Some? {
          var p := row.parent.value;
          ParentCheckMeansDepth(comments, p);
          AncestorCountAfterInsert(comments, n, row, p);
        }
      } else {
        AncestorCountAfterInsert(comments, n, row, c);
      }
    }
  }

  /** A cascade delete leaves the ancestors of the surviving comments as they were. */
  lemma {:induction false} AncestorCountAfterCascade(comments: map<CommentId, Comment>, seeds: set<CommentId>, c: CommentId)
    requires ParentLinksValid(comments)
    requires c in comments - CascadeSet(comments, seeds)
    ensures ParentLinksValid(comments - CascadeSet(comments, seeds))
    ensures AncestorCount(comments - CascadeSet(comments, seeds), c) == AncestorCount(comments, c)
    decreases c
  {
    CascadeLeavesValidLinks(comments, seeds);
    if comments[c].parent.Some? {
      CascadeIsClosed(comments, seeds, c);
      AncestorCountAfterCascade(comments, seeds, comments[c].parent.value);
    }
  }

  /** Deleting never makes a thread deeper. */
  lemma CascadeKeepsNesting(comments: map<CommentId, Comment>, seeds: set<CommentId>)
    requires ParentLinksValid(comments) && NestingWithinThree(comments)
    ensures ParentLinksValid(comments - CascadeSet(comments, seeds))
    ensures NestingWithinThree(comments - CascadeSet(comments, seeds))
  {
    CascadeLeavesValidLinks(comments, seeds);
    var rest := comments - CascadeSet(comments, seeds);
    forall c | c in rest ensures Depth(rest, c) <= 3 {
      AncestorCountAfterCascade(comments, seeds, c);
    }
  }

  /** C1 <- C2 <- C3: replies to C1 and to C2 pass the check, a reply to C3 does not. */
  lemma ThirdLevelIsLast(post: PostId, author: string, email: string, content: string)
    ensures var c1 := Comment(post, author, email, 0, content, None);
            var c2 := Comment(post, author, email, 1, content, Some(1));
            var c3 := Comment(post, author, email, 2, content, Some(2));
            var comments := map[1 := c1, 2 := c2, 3 := c3];
            && AncestorAt(comments, 1, 2).None?
            && AncestorAt(comments, 2, 2).None?
            && AncestorAt(comments, 3, 2) == Some(1)
  {
  }

  /** A serialized comment: its row and the serialized comments that reply to it. */
  datatype Thread = Thread(id: CommentId, comment: Comment, replies: seq<Thread>)

  function ReplyIds(t: Thread): seq<CommentId>
  {
    seq(|t.replies|, i requires 0 <= i < |t.replies| => t.replies[i].id)
  }

  /** Comment.objects.filter(parent_comment=c): the direct replies of `c`. */
  function Replies(comments: map<CommentId, Comment>, bound: nat, c: CommentId): seq<CommentId>
  {
    IdsBelow(comments, (x: Comment) => x.parent == Some(c), bound)
  }

  /** get_replies, applied at every level: the comment with its direct
      replies, each carrying its own replies, with no depth cap. */
  function BuildThread(comments: map<CommentId, Comment>, bound: nat, c: CommentId): (t: Thread)
    requires ParentLinksValid(comments) && KeysBelow(comments, bound) && c in comments
    ensures t.id == c && t.comment == comments[c]
    ensures ReplyIds(t) == Replies(comments, bound, c)
    decreases bound - c, 1
  {
    var kids := Replies(comments, bound, c);
    assert forall i :: 0 <= i < |kids| ==> kids[i] in kids;
    Thread(c, comments[c], BuildForest(comments, bound, c, kids))
  }

  /** The serialized replies, one per id of `kids`, in order. */
  function BuildForest(comments: map<CommentId, Comment>, bound: nat, c: CommentId, kids: seq<CommentId>)
    : (ts: seq<Thread>)
    requires ParentLinksValid(comments) && KeysBelow(comments, bound) && c < bound
    requires forall i :: 0 <= i < |kids| ==> kids[i] in comments && c < kids[i]
    ensures |ts| == |kids|
    ensures forall i :: 0 <= i < |ts| ==> ts[i].id == kids[i] && ts[i].comment == comments[kids[i]]
    decreases bound - c, 0, |kids|
  {
    if kids == [] then []
    else [BuildThread(comments, bound, kids[0])] + BuildForest(comments, bound, c, kids[1..])
  }

  /** Every comment shown in a serialized thread, the root first. */
  function Flatten(t: Thread): seq<CommentId>
    decreases t
  {
    [t.id] + FlattenAll(t.replies)
  }

  function FlattenAll(ts: seq<Thread>): seq<CommentId>
    decreases ts
  {
    if ts == [] then [] else Flatten(ts[0]) + FlattenAll(ts[1..])
  }

  /** The serialized thread of a comment shows exactly its reply subtree: the
      comments that deleting it would remove. */
  lemma {:induction false} ThreadShowsSubtree(comments: map<CommentId, Comment>, bound: nat, c: CommentId)
    requires ParentLinksValid(comments) && KeysBelow(comments, bound) && c in comments
    ensures forall d :: d in Flatten(BuildThread(comments, bound, c)) <==> d in Subtree(comments, c)
    ensures forall d :: d in Flatten(BuildThread(comments, bound, c)) ==> c <= d
    decreases bound - c, 1
  {
    var kids := Replies(comments, bound, c);
    assert forall i :: 0 <= i < |kids| ==> kids[i] in kids;
    var t := BuildThread(comments, bound, c);
    assert t.replies == BuildForest(comments, bound, c, kids);
    ForestShowsSubtrees(comments, bound, c, kids);
    RepliesShowSubtree(comments, bound, c, FlattenAll(t.replies));
    forall d | d in Flatten(t) ensures c <= d {
      SubtreeAboveRoot(comments, d, c);
    }
  }

  /** The comments below the direct replies of `c` are the subtree of `c`
      without `c` itself. */
  lemma RepliesShowSubtree(comments: map<CommentId, Comment>, bound: nat, c: CommentId, flat: seq<CommentId>)
    requires ParentLinksValid(comments) && c in comments
    requires forall d :: d in flat <==>
               exists k :: k in Replies(comments, bound, c) && d in comments && Reaches(comments, d, {k})
    requires KeysBelow(comments, bound)
    ensures forall d :: d in [c] + flat <==> d in Subtree(comments, c)
  {
    var kids := Replies(comments, bound, c);
    forall d | d in flat ensures d in Subtree(comments, c) {
      var k :| k in kids && d in comments && Reaches(comments, d, {k});
      ReplySubtreeInside(comments, bound, c, k, d);
    }
    forall d | d in Subtree(comments, c) && d != c ensures d in flat {
      var k := BelowSomeReply(comments, d, c);
      assert k in kids;
    }
  }

  /** What lies below a direct reply of `c` lies below `c`. */
  lemma ReplySubtreeInside(comments: map<CommentId, Comment>, bound: nat, c: CommentId, k: CommentId, d: CommentId)
    requires ParentLinksValid(comments)
    requires k in Replies(comments, bound, c) && Reaches(comments, d, {k})
    ensures Reaches(comments, d, {c})
  {
    assert Reaches(comments, k, {c});
    ReachesTrans(comments, d, k, c);
  }

  lemma {:induction false} ForestShowsSubtrees(comments: map<CommentId, Comment>, bound: nat, c: CommentId, kids: seq<CommentId>)
    requires ParentLinksValid(comments) && KeysBelow(comments, bound) && c < bound
    requires forall i :: 0 <= i < |kids| ==> kids[i] in comments && c < kids[i]
    ensures forall d :: d in FlattenAll(BuildForest(comments, bound, c, kids)) <==>
                        exists k :: k in kids && d in comments && Reaches(comments, d, {k})
    decreases bound - c, 0, |kids|
  {
    var ts := BuildForest(comments, bound, c, kids);
    if kids != [] {
      ThreadShowsSubtree(comments, bound, kids[0]);
      ForestShowsSubtrees(comments, bound, c, kids[1..]);
      assert ts[0] == BuildThread(comments, bound, kids[0]);
      assert ts[1..] == BuildForest(comments, bound, c, kids[1..]);
      forall d ensures d in FlattenAll(ts) <==> exists k :: k in kids && d in comments && Reaches(comments, d, {k}) {
        if d in FlattenAll(ts) && d !in Flatten(ts[0]) {
          var k :| k in kids[1..] && d in comments && Reaches(comments, d, {k});
          assert k in kids;
        }
        if exists k :: k in kids && d in comments && Reaches(comments, d, {k}) {
          var k :| k in kids && d in comments && Reaches(comments, d, {k});
          if k != kids[0] {
            assert k in kids[1..];
          }
        }
      }
    }
  }
}
