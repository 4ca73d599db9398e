/** The endpoints: lookups by slug (404 when nothing matches), the published
    post list with its newest-first order and pages of ten, the filtered
    listings, and the PUT / DELETE / POST handlers. */
module Views {
  import opened Common
  import opened Records
  import opened Cascade
  import opened Store
  import opened Serializers

  /** get_object_or_404 on a slug column: the record holding `slug`, or none.
      Ids are scanned from the smallest, so with a unique column the answer
      is the only match. */
  function FindBySlug<V>(m: map<nat, V>, column: V -> string, slug: string, bound: nat): (r: Option<nat>)
    ensures r.Some? ==> r.value in m && column(m[r.value]) == slug
    ensures r.None? ==> forall k :: k in m && k < bound ==> column(m[k]) != slug
  {
    var hits := IdsBelow(m, (v: V) => column(v) == slug, bound);
    if hits == [] then None
    else
      assert hits[0] in hits;
      Some(hits[0])
  }

  /** On a unique column within the id bound the lookup finds exactly the
      record holding the slug. */
  lemma FindBySlugExact<V>(m: map<nat, V>, column: V -> string, slug: string, bound: nat, k: nat)
    requires Unique(m, column) && KeysBelow(m, bound)
    ensures FindBySlug(m, column, slug, bound) == Some(k) <==> k in m && column(m[k]) == slug
  {
    var r := FindBySlug(m, column, slug, bound);
    if k in m && column(m[k]) == slug {
      assert r.Some?;
      assert column(m[r.value]) == column(m[k]);
    }
  }

  /** Every id of `s` names a post. */
  ghost predicate AllPosts(posts: map<PostId, Post>, s: seq<PostId>)
  {
    forall i :: 0 <= i < |s| ==> s[i] in posts
  }

  /** order_by('-created_at'): no post comes before a newer one. */
  ghost predicate NewestFirst(posts: map<PostId, Post>, s: seq<PostId>)
    requires AllPosts(posts, s)
  {
    forall i, j :: 0 <= i < j < |s| ==> posts[s[i]].createdAt >= posts[s[j]].createdAt
  }

  ghost predicate Distinct(s: seq<nat>)
  {
    forall i, j :: 0 <= i < j < |s| ==> s[i] != s[j]
  }

  /** Puts `p` in front of the first post that is not newer than it. */
  function InsertByDate(posts: map<PostId, Post>, p: PostId, s: seq<PostId>): (r: seq<PostId>)
    requires p in posts && AllPosts(posts, s) && NewestFirst(posts, s)
    ensures forall x :: x in r <==> x == p || x in s
    ensures AllPosts(posts, r) && NewestFirst(posts, r)
    ensures multiset(r) == multiset(s) + multiset{p}
    ensures Distinct(s) && p !in s ==> Distinct(r)
    decreases |s|
  {
    if s == [] then [p]
    else if posts[p].createdAt >= posts[s[0]].createdAt then
      InsertInFront(posts, p, s);
      [p] + s
    else
      var rest := InsertByDate(posts, p, s[1..]);
      InsertBehind(posts, p, s, rest);
      ConsContents(p, s, rest);
      [s[0]] + rest
  }

  /** Putting back the head of `s` in front of `rest`, which is the tail of
      `s` with `p` added, gives `s` with `p` added. */
  lemma ConsContents(p: PostId, s: seq<PostId>, rest: seq<PostId>)
    requires s != []
    requires forall x :: x in rest <==> x == p || x in s[1..]
    requires multiset(rest) == multiset(s[1..]) + multiset{p}
    ensures forall x :: x in [s[0]] + rest <==> x == p || x in s
    ensures multiset([s[0]] + rest) == multiset(s) + multiset{p}
  {
    assert s == [s[0]] + s[1..];
    assert multiset([s[0]] + rest) == multiset{s[0]} + multiset(rest);
  }

  lemma InsertInFront(posts: map<PostId, Post>, p: PostId, s: seq<PostId>)
    requires p in posts && AllPosts(posts, s) && NewestFirst(posts, s)
    requires s != [] && posts[p].createdAt >= posts[s[0]].createdAt
    ensures forall x :: x in [p] + s <==> x == p || x in s
    ensures multiset([p] + s) == multiset(s) + multiset{p}
    ensures AllPosts(posts, [p] + s) && NewestFirst(posts, [p] + s)
    ensures Distinct(s) && p !in s ==> Distinct([p] + s)
  {
    var r := [p] + s;
    forall i, j | 0 <= i < j < |r|
      ensures posts[r[i]].createdAt >= posts[r[j]].createdAt
    {
      if i == 0 && j > 1 {
        assert posts[s[0]].createdAt >= posts[s[j - 1]].createdAt;
      }
    }
    if Distinct(s) && p !in s {
      forall i, j | 0 <= i < j < |r|
        ensures r[i] != r[j]
      {
        if i == 0 {
          assert r[j] in s;
        }
      }
    }
  }

  lemma InsertBehind(posts: map<PostId, Post>, p: PostId, s: seq<PostId>, rest: seq<PostId>)
    requires p in posts && AllPosts(posts, s) && NewestFirst(posts, s)
    requires s != [] && posts[p].createdAt < posts[s[0]].createdAt
    requires forall x :: x in rest <==> x == p || x in s[1..]
    requires AllPosts(posts, rest) && NewestFirst(posts, rest)
    requires Distinct(s[1..]) && p !in s[1..] ==> Distinct(rest)
    ensures AllPosts(posts, [s[0]] + rest) && NewestFirst(posts, [s[0]] + rest)
    ensures Distinct(s) && p !in s ==> Distinct([s[0]] + rest)
  {
    var r := [s[0]] + rest;
    forall j | 0 < j < |r|
      ensures posts[r[0]].createdAt >= posts[r[j]].createdAt
    {
      assert r[j] in rest;
      if r[j] != p {
        var k :| 0 <= k < |s[1..]| && s[1..][k] == r[j];
        assert s[k + 1] == r[j];
      }
    }
    assert NewestFirst(posts, r);
    if Distinct(s) && p !in s {
      assert Distinct(s[1..]);
      forall j | 0 < j < |r|
        ensures r[0] != r[j]
      {
        assert r[j] in rest;
        if r[j] != p {
          var k :| 0 <= k < |s[1..]| && s[1..][k] == r[j];
          assert s[k + 1] == r[j];
        }
      }
    }
  }

  /** The listing sorted newest first, as the database returns it. */
  function SortNewestFirst(posts: map<PostId, Post>, s: seq<PostId>): (r: seq<PostId>)
    requires AllPosts(posts, s)
    ensures AllPosts(posts, r) && NewestFirst(posts, r)
    ensures multiset(r) == multiset(s)
    ensures Distinct(s) ==> Distinct(r)
    decreases |s|
  {
    if s == [] then []
    else
      var front := s[..|s| - 1];
      var last := s[|s| - 1];
      SplitLast(s);
      var sorted := SortNewestFirst(posts, front);
      assert last in sorted <==> last in multiset(sorted);
      InsertByDate(posts, last, sorted)
  }

  /** A non-empty sequence is its front followed by its last element. */
  lemma SplitLast(s: seq<PostId>)
    requires s != []
    ensures s == s[..|s| - 1] + [s[|s| - 1]]
    ensures multiset(s) == multiset(s[..|s| - 1]) + multiset{s[|s| - 1]}
    ensures Distinct(s) ==> Distinct(s[..|s| - 1]) && s[|s| - 1] !in multiset(s[..|s| - 1])
  {
    assert s == s[..|s| - 1] + [s[|s| - 1]];
  }

  function IsPublished(p: Post): bool
  {
    p.status == Published
  }

  /** Post.objects.filter(status="published").order_by('-created_at'):
      every published post once, drafts never, newest first. */
  function PublishedPosts(posts: map<PostId, Post>, bound: nat): (r: seq<PostId>)
    ensures AllPosts(posts, r) && NewestFirst(posts, r) && Distinct(r)
    ensures forall p :: p in r <==> p in posts && p < bound && posts[p].status == Published
  {
    var ids := IdsBelow(posts, IsPublished, bound);
    assert Distinct(ids);
    var r := SortNewestFirst(posts, ids);
    assert forall p :: p in r <==> p in multiset(r);
    assert forall p :: p in ids <==> p in multiset(ids);
    r
  }

  const PageSize: nat := 10

  function Min(a: int, b: int): int
  {
    if a <= b then a else b
  }

  /** PageNumberPagination with page_size 10 over an ordered listing. Page 1
      always exists, even for an empty listing; any other page number must
      be at least 2 and start within the listing, else the page is not found. */
  function Page<T>(items: seq<T>, page: int): (r: Result<seq<T>, ApiError>)
    ensures r.Ok? <==> page == 1 || (page > 1 && (page - 1) * PageSize < |items|)
    ensures r.Err? ==> r.error == NotFound
    ensures r.Ok? ==> |r.value| == Min(PageSize, |items| - (page - 1) * PageSize) <= PageSize
    ensures r.Ok? ==> forall i :: 0 <= i < |r.value| ==> r.value[i] == items[(page - 1) * PageSize + i]
  {
    if page < 1 || (page > 1 && (page - 1) * PageSize >= |items|) then Err(NotFound)
    else
      var start := Min((page - 1) * PageSize, |items|);
      Ok(items[start..Min(page * PageSize, |items|)])
  }

  /** Item i of the listing is item i % 10 of page i / 10 + 1, so the
      pages together show the whole listing. */
  lemma ItemOnItsPage<T>(items: seq<T>, i: nat)
    requires i < |items|
    ensures var r := Page(items, i / PageSize + 1);
            r.Ok? && i % PageSize < |r.value| && r.value[i % PageSize] == items[i]
  {
    var k := i / PageSize + 1;
    assert (k - 1) * PageSize + i % PageSize == i;
  }

  /** Two different pages of a listing without repeats share no item. */
  lemma PagesDisjoint(items: seq<nat>, j: int, k: int)
    requires Distinct(items) && j != k
    requires Page(items, j).Ok? && Page(items, k).Ok?
    ensures forall x :: x in Page(items, j).value ==> x !in Page(items, k).value
  {
    var pj := Page(items, j).value;
    var pk := Page(items, k).value;
    forall x | x in pj
      ensures x !in pk
    {
      var a :| 0 <= a < |pj| && pj[a] == x;
      assert x == items[(j - 1) * PageSize + a];
    }
  }

  /** Fifteen published posts: page 2 holds the five oldest, no post of page
      1, and there is no page 3. */
  lemma FifteenPosts(items: seq<nat>)
    requires |items| == 15 && Distinct(items)
    ensures Page(items, 1).Ok? && |Page(items, 1).value| == 10
    ensures Page(items, 2).Ok? && Page(items, 2).value == items[10..]
    ensures forall x :: x in Page(items, 2).value ==> x !in Page(items, 1).value
    ensures Page(items, 3) == Err(NotFound)
  {
    PagesDisjoint(items, 2, 1);
  }

  /** GET /posts/?page=k. */
  function PostList(posts: map<PostId, Post>, bound: nat, page: int): (r: Result<seq<PostId>, ApiError>)
    ensures r.Ok? ==> |r.value| <= PageSize
    ensures r.Ok? ==> forall p :: p in r.value ==> p in posts && posts[p].status == Published
  {
    var all := PublishedPosts(posts, bound);
    var r := Page(all, page);
    assert r.Ok? ==> forall i :: 0 <= i < |r.value| ==> r.value[i] in all;
    r
  }

  /** Within a page posts keep the newest-first order, and every post of an
      earlier page is at least as new as every post of a later one. */
  lemma PostListOrdered(posts: map<PostId, Post>, bound: nat, j: int, k: int, a: nat, b: nat)
    requires j <= k
    requires PostList(posts, bound, j).Ok? && PostList(posts, bound, k).Ok?
    requires a < |PostList(posts, bound, j).value| && b < |PostList(posts, bound, k).value|
    requires j < k || a <= b
    ensures posts[PostList(posts, bound, j).value[a]].createdAt >= posts[PostList(posts, bound, k).value[b]].createdAt
  {
    PagesKeepOrder(posts, PublishedPosts(posts, bound), j, k, a, b);
  }

  lemma PagesKeepOrder(posts: map<PostId, Post>, all: seq<PostId>, j: int, k: int, a: nat, b: nat)
    requires AllPosts(posts, all) && NewestFirst(posts, all)
    requires j <= k && Page(all, j).Ok? && Page(all, k).Ok?
    requires a < |Page(all, j).value| && b < |Page(all, k).value|
    requires j < k || a <= b
    ensures Page(all, j).value[a] in posts && Page(all, k).value[b] in posts
    ensures posts[Page(all, j).value[a]].createdAt >= posts[Page(all, k).value[b]].createdAt
  {
    var ia := (j - 1) * PageSize + a;
    var ib := (k - 1) * PageSize + b;
    assert Page(all, j).value[a] == all[ia] && Page(all, k).value[b] == all[ib];
    if j < k {
      assert ia < j * PageSize <= (k - 1) * PageSize <= ib;
    }
    if ia < ib {
      assert posts[all[ia]].createdAt >= posts[all[ib]].createdAt;
    }
  }

  /** GET /posts/<slug>/. */
  function PostDetail(posts: map<PostId, Post>, bound: nat, slug: string): (r: Result<PostId, ApiError>)
    ensures r.Ok? ==> r.value in posts && posts[r.value].slug == slug
    ensures r.Err? ==> r.error == NotFound && forall k :: k in posts && k < bound ==> posts[k].slug != slug
  {
    var found := FindBySlug(posts, PostSlug, slug, bound);
    if found.None? then Err(NotFound) else Ok(found.value)
  }

  /** GET /categories/<slug>/posts/: the category's posts, drafts included. */
  function CategoryPostList(categories: map<CategoryId, Category>, categoryBound: nat,
                            posts: map<PostId, Post>, postBound: nat, slug: string): (r: Result<seq<PostId>, ApiError>)
    ensures var found := FindBySlug(categories, CategorySlug, slug, categoryBound);
      && (r.Err? <==> found.None?)
      && (r.Err? ==> r.error == NotFound)
      && (r.Ok? ==> forall p :: p in r.value <==> p in posts && p < postBound && posts[p].category == found.value)
  {
    var found := FindBySlug(categories, CategorySlug, slug, categoryBound);
    if found.None? then Err(NotFound) else Ok(IdsBelow(posts, InCategory(found.value), postBound))
  }

  /** GET /tags/<slug>/posts/: the posts carrying the tag, drafts included. */
  function TagPostList(tags: map<TagId, Tag>, tagBound: nat,
                       posts: map<PostId, Post>, postBound: nat, slug: string): (r: Result<seq<PostId>, ApiError>)
    ensures var found := FindBySlug(tags, TagSlug, slug, tagBound);
      && (r.Err? <==> found.None?)
      && (r.Err? ==> r.error == NotFound)
      && (r.Ok? ==> forall p :: p in r.value <==> p in posts && p < postBound && found.value in posts[p].tags)
  {
    var found := FindBySlug(tags, TagSlug, slug, tagBound);
    if found.None? then Err(NotFound) else Ok(IdsBelow(posts, WithTag(found.value), postBound))
  }

  /** GET /posts/<slug>/comments/: every comment of the post, replies
      included, as a flat list. */
  function PostCommentList(posts: map<PostId, Post>, postBound: nat,
                           comments: map<CommentId, Comment>, commentBound: nat, slug: string)
    : (r: Result<seq<CommentId>, ApiError>)
    ensures var found := FindBySlug(posts, PostSlug, slug, postBound);
      && (r.Err? <==> found.None?)
      && (r.Err? ==> r.error == NotFound)
      && (r.Ok? ==> forall c :: c in r.value <==> c in comments && c < commentBound && comments[c].post == found.value)
  {
    var found := FindBySlug(posts, PostSlug, slug, postBound);
    if found.None? then Err(NotFound) else Ok(IdsBelow(comments, OnPost(found.value), commentBound))
  }

  /** The listings show exactly as many rows as the counts the serializers
      report for the same record. */
  lemma ListingsMatchCounts(db: BlogStore, slug: string)
    requires db.Valid()
    ensures var r := CategoryPostList(db.categories, db.nextCategory, db.posts, db.nextPost, slug);
            r.Ok? ==> |r.value| == CategoryPostCount(db.posts, FindBySlug(db.categories, CategorySlug, slug, db.nextCategory).value)
    ensures var r := TagPostList(db.tags, db.nextTag, db.posts, db.nextPost, slug);
            r.Ok? ==> |r.value| == TagPostCount(db.posts, FindBySlug(db.tags, TagSlug, slug, db.nextTag).value)
    ensures var r := PostCommentList(db.posts, db.nextPost, db.comments, db.nextComment, slug);
            r.Ok? ==> |r.value| == CommentsCount(db.comments, FindBySlug(db.posts, PostSlug, slug, db.nextPost).value)
  {
    var c := FindBySlug(db.categories, CategorySlug, slug, db.nextCategory);
    if c.Some? {
      IdsBelowAsSet(db.posts, InCategory(c.value), db.nextPost);
    }
    var t := FindBySlug(db.tags, TagSlug, slug, db.nextTag);
    if t.Some? {
      IdsBelowAsSet(db.posts, WithTag(t.value), db.nextPost);
    }
    var p := FindBySlug(db.posts, PostSlug, slug, db.nextPost);
    if p.Some? {
      IdsBelowAsSet(db.comments, OnPost(p.value), db.nextComment);
    }
  }

  function Always<V>(v: V): bool
  {
    true
  }

  /** GET /categories/, /tags/ and /posts/comments/: every row once, ascending
      by id. */
  function ListAll<V>(m: map<nat, V>, bound: nat): (r: seq<nat>)
    ensures forall k :: k in r <==> k in m && k < bound
    ensures StrictlyIncreasing(r)
  {
    IdsBelow(m, Always, bound)
  }

  /** PUT /posts/<slug>/: a partial update. An unknown slug is not found, a
      status outside the two choices is refused on that field, and every
      failure leaves the posts as they were. The slug the handler writes
      into the payload is dropped (the field is read-only), so the new slug
      comes from the update rule alone. */
  method PutPost(db: BlogStore, slug: string, title: Option<string>, content: Option<string>, status: Option<string>)
    returns (r: Result<PostId, ApiError>)
    requires db.Valid()
    modifies db
    ensures db.Valid()
    ensures var found := FindBySlug(old(db.posts), PostSlug, slug, old(db.nextPost));
      var validStatus := status.None? || ParseStatus(status.value).Some?;
      && (r == Err(NotFound) <==> found.None?)
      && (found.Some? && !validStatus ==> r == Err(Invalid({StatusField})))
      && (found.Some? && validStatus ==>
            var row := PatchedPost(old(db.posts)[found.value], title, content,
                                   if status.Some? then ParseStatus(status.value) else None, db.slugify, old(db.clock));
            && (r.Ok? <==> !Taken(old(db.posts), PostSlug, row.slug, found))
            && (r.Ok? ==> r.value == found.value && db.posts == old(db.posts)[found.value := row])
            && (r.Err? ==> r.error == Integrity(UniqueViolation)))
      && (r.Err? ==> db.posts == old(db.posts))
    ensures db.authors == old(db.authors) && db.categories == old(db.categories)
    ensures db.tags == old(db.tags) && db.comments == old(db.comments)
  {
    var found := FindBySlug(db.posts, PostSlug, slug, db.nextPost);
    if found.None? {
      return Err(NotFound);
    }
    var choice: Option<Status> := None;
    if status.Some? {
      choice := ParseStatus(status.value);
      if choice.None? {
        return Err(Invalid({StatusField}));
      }
    }
    r := UpdatePost(db, found.value, title, content, choice);
  }

  /** DELETE /posts/<slug>/: removes the post and, by cascade, its comments
      and every reply below them. */
  method DeletePostBySlug(db: BlogStore, slug: string) returns (r: Result<PostId, ApiError>)
    requires db.Valid()
    modifies db
    ensures db.Valid()
    ensures var found := FindBySlug(old(db.posts), PostSlug, slug, old(db.nextPost));
      && (found.None? <==> r == Err(NotFound))
      && (found.Some? ==> r == Ok(found.value))
      && (r.Err? ==> db.posts == old(db.posts) && db.comments == old(db.comments))
      && (r.Ok? ==> found == Some(r.value)
                    && db.posts == old(db.posts) - {r.value}
                    && db.comments == old(db.comments)
                         - CascadeSet(old(db.comments), CommentsOn(old(db.comments), {r.value})))
    ensures forall c :: c in db.comments ==> db.comments[c].post in db.posts
    ensures db.authors == old(db.authors) && db.categories == old(db.categories) && db.tags == old(db.tags)
  {
    var found := FindBySlug(db.posts, PostSlug, slug, db.nextPost);
    if found.None? {
      return Err(NotFound);
    }
    db.DeletePost(found.value);
    r := Ok(found.value);
  }

  /** After a DELETE no comment of the deleted post is left: its
      comments_count is zero. */
  lemma DeleteLeavesNoComments(db: BlogStore, p: PostId)
    requires db.Valid() && p !in db.posts
    ensures CommentsCount(db.comments, p) == 0
  {
    assert Matching(db.comments, OnPost(p)) == {};
  }

  /** POST /posts/ as written: the serializer leaves author and category out,
      so the model is saved without them and the INSERT is always refused;
      no post is ever created. */
  method PostCreate(db: BlogStore, title: string, content: string, status: Option<string>)
    returns (r: Result<PostId, ApiError>)
    requires db.Valid()
    modifies db
    ensures db.Valid()
    ensures r.Err?
    ensures status.Some? && ParseStatus(status.value).None? ==> r == Err(Invalid({StatusField}))
    ensures (status.None? || ParseStatus(status.value).Some?) ==> r == Err(Integrity(NotNullViolation))
    ensures db.posts == old(db.posts) && db.comments == old(db.comments)
    ensures db.authors == old(db.authors) && db.categories == old(db.categories) && db.tags == old(db.tags)
  {
    var choice: Option<Status> := None;
    if status.Some? {
      choice := ParseStatus(status.value);
      if choice.None? {
        return Err(Invalid({StatusField}));
      }
    }
    CreateWithoutOwnerFails(db.authors.Keys, db.categories.Keys, db.posts, title, content, choice, db.slugify);
    r := CreatePost(db, title, content, choice, None, None);
  }

  /** POST /posts/ as evidently intended: the handler passes the author and
      category to save(). The post is created exactly when the status is a
      valid choice, both records exist and no post has slugify(title) yet. */
  method PostCreateFor(db: BlogStore, title: string, content: string, status: Option<string>,
                       author: AuthorId, category: CategoryId)
    returns (r: Result<PostId, ApiError>)
    requires db.Valid()
    modifies db
    ensures db.Valid()
    ensures var valid := status.None? || ParseStatus(status.value).Some?;
      && (r.Ok? <==> valid && author in old(db.authors) && category in old(db.categories)
                     && !Taken(old(db.posts), PostSlug, db.slugify(title), None))
      && (r.Err? ==> db.posts == old(db.posts))
      && (r.Ok? ==> r.value !in old(db.posts) && db.posts == old(db.posts)[r.value := Post(
            title, db.slugify(title), content, author, category, {}, old(db.clock), old(db.clock),
            if status.Some? then ParseStatus(status.value).value else DefaultStatus)])
    ensures db.comments == old(db.comments)
    ensures db.authors == old(db.authors) && db.categories == old(db.categories) && db.tags == old(db.tags)
  {
    var choice: Option<Status> := None;
    if status.Some? {
      choice := ParseStatus(status.value);
      if choice.None? {
        return Err(Invalid({StatusField}));
      }
    }
    r := CreatePost(db, title, content, choice, Some(author), Some(category));
  }
}
