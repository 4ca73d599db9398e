/** The on_delete=CASCADE rule of Comment.post and Comment.parent_comment:
    deleting comments ("seeds") also deletes every reply below them,
    transitively. The set is collected by a walk over the comment table
    before anything is removed. */
module Cascade {
  import opened Common
  import opened Records

  /** Referential integrity of parent_comment in the store: every parent is an
      existing comment, and it was created before its reply (smaller id). */
  ghost predicate ParentLinksValid(comments: map<CommentId, Comment>)
  {
    forall c :: c in comments && comments[c].parent.Some? ==>
      comments[c].parent.value in comments && comments[c].parent.value < c
  }

  /** `d` is a seed or one of its ancestors is. */
  ghost predicate Reaches(comments: map<CommentId, Comment>, d: CommentId, seeds: set<CommentId>)
    requires ParentLinksValid(comments)
    decreases d
  {
    d in seeds
    || (d in comments && comments[d].parent.Some? && Reaches(comments, comments[d].parent.value, seeds))
  }

  /** Every comment the database removes when `seeds` are deleted. */
  ghost function CascadeSet(comments: map<CommentId, Comment>, seeds: set<CommentId>): set<CommentId>
    requires ParentLinksValid(comments)
  {
    set d | d in comments && Reaches(comments, d, seeds)
  }

  /** The reply subtree of one comment, the comment included. */
  ghost function Subtree(comments: map<CommentId, Comment>, root: CommentId): set<CommentId>
    requires ParentLinksValid(comments)
  {
    CascadeSet(comments, {root})
  }

  /** Collects what deleting `seeds` removes. Because a parent's id is below its
      replies' ids, one ascending pass decides each comment after its parent. */
  method CollectCascade(comments: map<CommentId, Comment>, seeds: set<CommentId>, bound: nat)
    returns (doomed: set<CommentId>)
    requires ParentLinksValid(comments) && KeysBelow(comments, bound)
    ensures doomed == CascadeSet(comments, seeds)
  {
    doomed := {};
    var i := 0;
    while i < bound
      invariant i <= bound
      invariant doomed == set d | d in comments && d < i && Reaches(comments, d, seeds)
    {
      if i in comments && (i in seeds || (comments[i].parent.Some? && comments[i].parent.value in doomed)) {
        doomed := doomed + {i};
      }
      i := i + 1;
    }
  }

  /** What the cascade leaves behind still has valid parent links: no
      surviving comment points at a removed one. */
  lemma CascadeLeavesValidLinks(comments: map<CommentId, Comment>, seeds: set<CommentId>)
    requires ParentLinksValid(comments)
    ensures ParentLinksValid(comments - CascadeSet(comments, seeds))
  {
    var gone := CascadeSet(comments, seeds);
    var rest := comments - gone;
    forall c | c in rest && rest[c].parent.Some?
      ensures rest[c].parent.value in rest && rest[c].parent.value < c
    {
      CascadeIsClosed(comments, seeds, c);
    }
  }

  /** A new comment whose parent (if any) exists, stored under an id above
      every existing one, keeps the parent links valid. */
  lemma ParentLinksAfterInsert(comments: map<CommentId, Comment>, n: CommentId, row: Comment)
    requires ParentLinksValid(comments) && KeysBelow(comments, n)
    requires row.parent.Some? ==> row.parent.value in comments
    ensures ParentLinksValid(comments[n := row])
  {
    var m := comments[n := row];
    forall c | c in m && m[c].parent.Some?
      ensures m[c].parent.value in m && m[c].parent.value < c
    {
      if c != n {
        assert m[c] == comments[c];
      }
    }
  }

  /** A seed that is a comment is removed, and so is every reply of a removed comment. */
  lemma CascadeIsClosed(comments: map<CommentId, Comment>, seeds: set<CommentId>, c: CommentId)
    requires ParentLinksValid(comments)
    requires c in comments
    ensures c in seeds ==> c in CascadeSet(comments, seeds)
    ensures comments[c].parent.Some? && comments[c].parent.value in CascadeSet(comments, seeds)
            ==> c in CascadeSet(comments, seeds)
  {
  }

  /** Reaching is transitive along the parent relation: what lies below a
      comment of a subtree lies in that subtree. */
  lemma {:induction false} ReachesTrans(comments: map<CommentId, Comment>, d: CommentId, mid: CommentId, root: CommentId)
    requires ParentLinksValid(comments)
    requires Reaches(comments, d, {mid}) && Reaches(comments, mid, {root})
    ensures Reaches(comments, d, {root})
    decreases d
  {
    if d != mid {
      ReachesTrans(comments, comments[d].parent.value, mid, root);
    }
  }

  /** A comment strictly below `root` lies below one of root's direct replies. */
  lemma {:induction false} BelowSomeReply(comments: map<CommentId, Comment>, d: CommentId, root: CommentId)
      returns (k: CommentId)
    requires ParentLinksValid(comments)
    requires Reaches(comments, d, {root}) && d != root
    ensures k in comments && comments[k].parent == Some(root) && Reaches(comments, d, {k})
    decreases d
  {
    var p := comments[d].parent.value;
    if p == root {
      k := d;
    } else {
      k := BelowSomeReply(comments, p, root);
      assert Reaches(comments, d, {k});
    }
  }

  /** Everything in a subtree has an id no smaller than its root. */
  lemma {:induction false} SubtreeAboveRoot(comments: map<CommentId, Comment>, d: CommentId, root: CommentId)
    requires ParentLinksValid(comments)
    requires Reaches(comments, d, {root})
    ensures root <= d
    decreases d
  {
    if d != root {
      SubtreeAboveRoot(comments, comments[d].parent.value, root);
    }
  }
}
