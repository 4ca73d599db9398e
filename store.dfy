/** The database behind the models: one table per model, the integrity
    constraints the schema declares (unique columns, NOT NULL and foreign
    keys), the models' save() methods and the CASCADE deletes. */
module Store {
  import opened Common
  import opened Records
  import opened Cascade

  /** Why the database refuses a write. */
  datatype StoreError = NotNullViolation | ForeignKeyViolation | UniqueViolation

  /** A Post instance as save() sees it: the slug and both foreign keys may be unset. */
  datatype PostInstance = PostInstance(
    title: string,
    slug: Option<string>,
    content: string,
    author: Option<AuthorId>,
    category: Option<CategoryId>,
    status: Status)

  /** A Comment instance as save() sees it. */
  datatype CommentInstance = CommentInstance(
    post: PostId,
    author: string,
    authorEmail: string,
    content: string,
    parent: Option<CommentId>)

  /** The constraint a Post write is refused on, if any. Author and category
      are NOT NULL and the slug is unique, all checked by the statement
      itself; the foreign keys are checked at commit, as Django creates them
      deferred, so a row that also breaks one of those is refused earlier. */
  function PostSaveError(authorIds: set<AuthorId>, categoryIds: set<CategoryId>, posts: map<PostId, Post>,
                         id: Option<PostId>, slug: string, inst: PostInstance): Option<StoreError>
  {
    if inst.author.None? || inst.category.None? then Some(NotNullViolation)
    else if Taken(posts, PostSlug, slug, id) then Some(UniqueViolation)
    else if inst.author.value !in authorIds || inst.category.value !in categoryIds then Some(ForeignKeyViolation)
    else None
  }

  /** Every post points at an existing author, category and tags. */
  ghost predicate PostLinksValid(posts: map<PostId, Post>, authorIds: set<AuthorId>,
                                 categoryIds: set<CategoryId>, tagIds: set<TagId>)
  {
    forall p :: p in posts ==>
      posts[p].author in authorIds && posts[p].category in categoryIds && posts[p].tags <= tagIds
  }

  /** Every comment belongs to an existing post. */
  ghost predicate CommentPostsValid(comments: map<CommentId, Comment>, postIds: set<PostId>)
  {
    forall c :: c in comments ==> comments[c].post in postIds
  }

  /** Every timestamp is a past reading of the clock, and a post is never
      updated before it is created. */
  ghost predicate StampsBefore(posts: map<PostId, Post>, comments: map<CommentId, Comment>, clock: nat)
  {
    && (forall p :: p in posts ==> posts[p].createdAt <= posts[p].updatedAt < clock)
    && (forall c :: c in comments ==> comments[c].createdAt < clock)
  }

  /** The comments that belong to one of the given posts: the first victims
      of deleting those posts. */
  function CommentsOn(comments: map<CommentId, Comment>, postIds: set<PostId>): set<CommentId>
  {
    Matching(comments, OnPosts(postIds))
  }

  /** The filter Comment.objects.filter(post__in=postIds). */
  function OnPosts(postIds: set<PostId>): Comment -> bool
  {
    (c: Comment) => c.post in postIds
  }

  /** Removing rows keeps a unique column unique. */
  lemma UniqueAfterRemove<V>(m: map<nat, V>, column: V -> string, gone: set<nat>)
    requires Unique(m, column)
    ensures Unique(m - gone, column)
  {
    var m' := m - gone;
    forall i, j | i in m' && j in m' && column(m'[i]) == column(m'[j])
      ensures i == j
    {
      assert column(m[i]) == column(m[j]);
    }
  }

  /** Storing a new comment whose post and parent exist, stamped with the
      current clock, under a fresh id keeps the comment table consistent. */
  lemma CommentInsertKeepsLinks(posts: map<PostId, Post>, comments: map<CommentId, Comment>,
                                n: CommentId, clock: nat, row: Comment)
    requires CommentPostsValid(comments, posts.Keys) && ParentLinksValid(comments)
    requires KeysBelow(comments, n) && StampsBefore(posts, comments, clock)
    requires row.post in posts && row.createdAt == clock
    requires row.parent.Some? ==> row.parent.value in comments
    ensures CommentPostsValid(comments[n := row], posts.Keys) && ParentLinksValid(comments[n := row])
    ensures KeysBelow(comments[n := row], n + 1) && StampsBefore(posts, comments[n := row], clock + 1)
  {
    ParentLinksAfterInsert(comments, n, row);
  }

  /** Writing a post row whose links exist and whose stamps are past
      readings of the (possibly advanced) clock keeps the tables consistent. */
  lemma PostWriteKeepsLinks(authorIds: set<AuthorId>, categoryIds: set<CategoryId>, tagIds: set<TagId>,
                            posts: map<PostId, Post>, comments: map<CommentId, Comment>,
                            clock: nat, clock': nat, k: PostId, row: Post)
    requires PostLinksValid(posts, authorIds, categoryIds, tagIds)
    requires CommentPostsValid(comments, posts.Keys) && StampsBefore(posts, comments, clock)
    requires row.author in authorIds && row.category in categoryIds && row.tags <= tagIds
    requires row.createdAt <= row.updatedAt < clock' && clock <= clock'
    ensures PostLinksValid(posts[k := row], authorIds, categoryIds, tagIds)
    ensures CommentPostsValid(comments, posts[k := row].Keys)
    ensures StampsBefore(posts[k := row], comments, clock')
  {
  }

  class BlogStore {
    /** Django's slugify, left uninterpreted. */
    const slugify: string -> string

    var authors: map<AuthorId, Author>
    var categories: map<CategoryId, Category>
    var tags: map<TagId, Tag>
    var posts: map<PostId, Post>
    var comments: map<CommentId, Comment>

    /** The next id each table hands out (auto-increment primary keys). */
    var nextAuthor: nat
    var nextCategory: nat
    var nextTag: nat
    var nextPost: nat
    var nextComment: nat

    /** A logical clock standing for auto_now_add / auto_now: saving a post or
        inserting a comment reads it and advances it; no other write touches it. */
    var clock: nat

    ghost predicate Valid()
      reads this
    {
      && KeysBelow(authors, nextAuthor)
      && KeysBelow(categories, nextCategory)
      && KeysBelow(tags, nextTag)
      && KeysBelow(posts, nextPost)
      && KeysBelow(comments, nextComment)
      && Unique(authors, AuthorEmail)
      && Unique(categories, CategorySlug)
      && Unique(tags, TagSlug)
      && Unique(posts, PostSlug)
      && PostLinksValid(posts, authors.Keys, categories.Keys, tags.Keys)
      && CommentPostsValid(comments, posts.Keys)
      && ParentLinksValid(comments)
      && StampsBefore(posts, comments, clock)
    }

    constructor (slugify: string -> string)
      ensures Valid() && this.slugify == slugify
      ensures authors == map[] && categories == map[] && tags == map[] && posts == map[] && comments == map[]
    {
      this.slugify := slugify;
      authors, categories, tags, posts, comments := map[], map[], map[], map[], map[];
      nextAuthor, nextCategory, nextTag, nextPost, nextComment := 0, 0, 0, 0, 0;
      clock := 0;
    }

    /** Author.save() of a new author: email is a unique column. */
    method InsertAuthor(a: Author) returns (r: Result<AuthorId, StoreError>)
      requires Valid()
      modifies this
      ensures Valid()
      ensures r.Ok? <==> !Taken(old(authors), AuthorEmail, a.email, None)
      ensures r.Ok? ==> r.value == old(nextAuthor) && r.value !in old(authors)
                        && authors == old(authors)[r.value := a] && nextAuthor == old(nextAuthor) + 1
      ensures r.Err? ==> r.error == UniqueViolation && authors == old(authors) && nextAuthor == old(nextAuthor)
      ensures categories == old(categories) && tags == old(tags) && posts == old(posts) && comments == old(comments)
      ensures nextCategory == old(nextCategory) && nextTag == old(nextTag) && nextPost == old(nextPost)
      ensures nextComment == old(nextComment) && clock == old(clock)
    {
      if Taken(authors, AuthorEmail, a.email, None) {
        return Err(UniqueViolation);
      }
      UniqueAfterWrite(authors, AuthorEmail, nextAuthor, a);
      authors := authors[nextAuthor := a];
      r := Ok(nextAuthor);
      nextAuthor := nextAuthor + 1;
    }

    /** Category.save(): fill an empty slug from the name, then INSERT (no id
        yet) or UPDATE the row; a duplicate slug is refused. */
    method SaveCategory(id: Option<CategoryId>, name: string, slug: Option<string>, description: string)
      returns (r: Result<CategoryId, StoreError>)
      requires Valid() && (id.Some? ==> id.value in categories)
      modifies this
      ensures Valid()
      ensures var s := SlugOnSave(slug, name, slugify);
        && (r.Ok? <==> !Taken(old(categories), CategorySlug, s, id))
        && (r.Ok? ==> && (if id.Some? then r.value == id.value && nextCategory == old(nextCategory)
                          else r.value == old(nextCategory) && nextCategory == old(nextCategory) + 1)
                      && categories == old(categories)[r.value := Category(name, s, description)])
      ensures r.Err? ==> r.error == UniqueViolation && categories == old(categories) && nextCategory == old(nextCategory)
      ensures authors == old(authors) && tags == old(tags) && posts == old(posts) && comments == old(comments)
      ensures nextAuthor == old(nextAuthor) && nextTag == old(nextTag) && nextPost == old(nextPost)
      ensures nextComment == old(nextComment) && clock == old(clock)
    {
      var s := SlugOnSave(slug, name, slugify);
      if Taken(categories, CategorySlug, s, id) {
        return Err(UniqueViolation);
      }
      var k := if id.Some? then id.value else nextCategory;
      UniqueAfterWrite(categories, CategorySlug, k, Category(name, s, description));
      categories := categories[k := Category(name, s, description)];
      if id.None? {
        nextCategory := nextCategory + 1;
      }
      r := Ok(k);
    }

    /** Tags.save(): the same slug rule and uniqueness as Category. */
    method SaveTag(id: Option<TagId>, name: string, slug: Option<string>)
      returns (r: Result<TagId, StoreError>)
      requires Valid() && (id.Some? ==> id.value in tags)
      modifies this
      ensures Valid()
      ensures var s := SlugOnSave(slug, name, slugify);
        && (r.Ok? <==> !Taken(old(tags), TagSlug, s, id))
        && (r.Ok? ==> && (if id.Some? then r.value == id.value && nextTag == old(nextTag)
                          else r.value == old(nextTag) && nextTag == old(nextTag) + 1)
                      && tags == old(tags)[r.value := Tag(name, s)])
      ensures r.Err? ==> r.error == UniqueViolation && tags == old(tags) && nextTag == old(nextTag)
      ensures authors == old(authors) && categories == old(categories) && posts == old(posts) && comments == old(comments)
      ensures nextAuthor == old(nextAuthor) && nextCategory == old(nextCategory) && nextPost == old(nextPost)
      ensures nextComment == old(nextComment) && clock == old(clock)
    {
      var s := SlugOnSave(slug, name, slugify);
      if Taken(tags, TagSlug, s, id) {
        return Err(UniqueViolation);
      }
      var k := if id.Some? then id.value else nextTag;
      UniqueAfterWrite(tags, TagSlug, k, Tag(name, s));
      tags := tags[k := Tag(name, s)];
      if id.None? {
        nextTag := nextTag + 1;
      }
      r := Ok(k);
    }

    /** Post.save(): fill an empty slug from the title, stamp created_at on
        INSERT and updated_at on every write, keep the tag links of an
        existing row. */
    method SavePost(id: Option<PostId>, inst: PostInstance) returns (r: Result<PostId, StoreError>)
      requires Valid() && (id.Some? ==> id.value in posts)
      modifies this
      ensures Valid()
      ensures var s := SlugOnSave(inst.slug, inst.title, slugify);
        var err := PostSaveError(old(authors).Keys, old(categories).Keys, old(posts), id, s, inst);
        && (r.Ok? <==> err.None?)
        && (r.Err? ==> err == Some(r.error) && posts == old(posts) && nextPost == old(nextPost) && clock == old(clock))
        && (r.Ok? ==>
              && (if id.Some? then r.value == id.value && nextPost == old(nextPost)
                  else r.value == old(nextPost) && nextPost == old(nextPost) + 1)
              && clock == old(clock) + 1
              && posts == old(posts)[r.value := Post(
                   inst.title, s, inst.content, inst.author.value, inst.category.value,
                   if id.Some? then old(posts)[id.value].tags else {},
                   if id.Some? then old(posts)[id.value].createdAt else old(clock),
                   old(clock),
                   inst.status)])
      ensures authors == old(authors) && categories == old(categories) && tags == old(tags) && comments == old(comments)
      ensures nextAuthor == old(nextAuthor) && nextCategory == old(nextCategory) && nextTag == old(nextTag)
      ensures nextComment == old(nextComment)
    {
      var s := SlugOnSave(inst.slug, inst.title, slugify);
      var err := PostSaveError(authors.Keys, categories.Keys, posts, id, s, inst);
      if err.Some? {
        return Err(err.value);
      }
      var k := if id.Some? then id.value else nextPost;
      var row := Post(
        inst.title, s, inst.content, inst.author.value, inst.category.value,
        if id.Some? then posts[id.value].tags else {},
        if id.Some? then posts[id.value].createdAt else clock,
        clock,
        inst.status);
      UniqueAfterWrite(posts, PostSlug, k, row);
      PostWriteKeepsLinks(authors.Keys, categories.Keys, tags.Keys, posts, comments, clock, clock + 1, k, row);
      posts := posts[k := row];
      if id.None? {
        nextPost := nextPost + 1;
      }
      clock := clock + 1;
      r := Ok(k);
    }

    /** post.tags.set(...): replace the tag links of a post; every tag must exist. */
    method SetPostTags(id: PostId, tagIds: set<TagId>) returns (r: Result<PostId, StoreError>)
      requires Valid() && id in posts
      modifies this
      ensures Valid()
      ensures r.Ok? <==> tagIds <= old(tags).Keys
      ensures r.Ok? ==> r.value == id && posts == old(posts)[id := old(posts)[id].(tags := tagIds)]
      ensures r.Err? ==> r.error == ForeignKeyViolation && posts == old(posts)
      ensures authors == old(authors) && categories == old(categories) && tags == old(tags) && comments == old(comments)
      ensures nextAuthor == old(nextAuthor) && nextCategory == old(nextCategory) && nextTag == old(nextTag)
      ensures nextPost == old(nextPost) && nextComment == old(nextComment) && clock == old(clock)
    {
      if !(tagIds <= tags.Keys) {
        return Err(ForeignKeyViolation);
      }
      var row := posts[id].(tags := tagIds);
      assert PostSlug(row) == PostSlug(posts[id]);
      UniqueAfterWrite(posts, PostSlug, id, row);
      PostWriteKeepsLinks(authors.Keys, categories.Keys, tags.Keys, posts, comments, clock, clock, id, row);
      posts := posts[id := row];
      r := Ok(id);
    }

    /** Comment.save() of a new comment: the post and the parent (if any) must
        exist; nothing relates the parent's post to this one. */
    method InsertComment(inst: CommentInstance) returns (r: Result<CommentId, StoreError>)
      requires Valid()
      modifies this
      ensures Valid()
      ensures r.Ok? <==> inst.post in old(posts) && (inst.parent.Some? ==> inst.parent.value in old(comments))
      ensures r.Ok? ==> && r.value == old(nextComment) && r.value !in old(comments)
                        && nextComment == old(nextComment) + 1 && clock == old(clock) + 1
                        && comments == old(comments)[r.value := Comment(
                             inst.post, inst.author, inst.authorEmail, old(clock), inst.content, inst.parent)]
      ensures r.Err? ==> && r.error == ForeignKeyViolation && comments == old(comments)
                         && nextComment == old(nextComment) && clock == old(clock)
      ensures authors == old(authors) && categories == old(categories) && tags == old(tags) && posts == old(posts)
      ensures nextAuthor == old(nextAuthor) && nextCategory == old(nextCategory) && nextTag == old(nextTag)
      ensures nextPost == old(nextPost)
    {
      if inst.post !in posts || (inst.parent.Some? && inst.parent.value !in comments) {
        return Err(ForeignKeyViolation);
      }
      var row := Comment(inst.post, inst.author, inst.authorEmail, clock, inst.content, inst.parent);
      CommentInsertKeepsLinks(posts, comments, nextComment, clock, row);
      comments := comments[nextComment := row];
      r := Ok(nextComment);
      nextComment := nextComment + 1;
      clock := clock + 1;
    }

    /** comment.delete(): the comment and, through parent_comment's CASCADE,
        every reply below it. */
    method DeleteComment(id: CommentId)
      requires Valid() && id in comments
      modifies this
      ensures Valid()
      ensures comments == old(comments) - Subtree(old(comments), id)
      ensures authors == old(authors) && categories == old(categories) && tags == old(tags) && posts == old(posts)
      ensures nextAuthor == old(nextAuthor) && nextCategory == old(nextCategory) && nextTag == old(nextTag)
      ensures nextPost == old(nextPost) && nextComment == old(nextComment) && clock == old(clock)
    {
      var doomed := CollectCascade(comments, {id}, nextComment);
      CascadeLeavesValidLinks(comments, {id});
      comments := comments - doomed;
    }

    /** Deletes some posts together with their comments and, transitively,
        the replies to those comments (which may belong to other posts). */
    method RemovePosts(doomedPosts: set<PostId>)
      requires Valid()
      modifies this
      ensures Valid()
      ensures posts == old(posts) - doomedPosts
      ensures comments == old(comments) - CascadeSet(old(comments), CommentsOn(old(comments), doomedPosts))
      ensures authors == old(authors) && categories == old(categories) && tags == old(tags)
      ensures nextAuthor == old(nextAuthor) && nextCategory == old(nextCategory) && nextTag == old(nextTag)
      ensures nextPost == old(nextPost) && nextComment == old(nextComment) && clock == old(clock)
    {
      var seeds := CommentsOn(comments, doomedPosts);
      var doomed := CollectCascade(comments, seeds, nextComment);
      CascadeLeavesValidLinks(comments, seeds);
      UniqueAfterRemove(posts, PostSlug, doomedPosts);
      forall c | c in comments && c !in doomed
        ensures comments[c].post !in doomedPosts
      {
        CascadeIsClosed(comments, seeds, c);
      }
      comments := comments - doomed;
      posts := posts - doomedPosts;
    }

    /** post.delete(): the post and every comment below it. */
    method DeletePost(id: PostId)
      requires Valid() && id in posts
      modifies this
      ensures Valid()
      ensures posts == old(posts) - {id}
      ensures comments == old(comments) - CascadeSet(old(comments), CommentsOn(old(comments), {id}))
      ensures authors == old(authors) && categories == old(categories) && tags == old(tags)
      ensures nextAuthor == old(nextAuthor) && nextCategory == old(nextCategory) && nextTag == old(nextTag)
      ensures nextPost == old(nextPost) && nextComment == old(nextComment) && clock == old(clock)
    {
      RemovePosts({id});
    }

    /** author.delete(): the author's posts go through Post.author's CASCADE. */
    method DeleteAuthor(id: AuthorId)
      requires Valid() && id in authors
      modifies this
      ensures Valid()
      ensures var gone := set p | p in old(posts) && old(posts)[p].author == id;
        && authors == old(authors) - {id}
        && posts == old(posts) - gone
        && comments == old(comments) - CascadeSet(old(comments), CommentsOn(old(comments), gone))
      ensures categories == old(categories) && tags == old(tags)
      ensures nextAuthor == old(nextAuthor) && nextCategory == old(nextCategory) && nextTag == old(nextTag)
      ensures nextPost == old(nextPost) && nextComment == old(nextComment) && clock == old(clock)
    {
      RemovePosts(set p | p in posts && posts[p].author == id);
      UniqueAfterRemove(authors, AuthorEmail, {id});
      authors := authors - {id};
    }

    /** category.delete(): the category's posts go through Post.category's CASCADE. */
    method DeleteCategory(id: CategoryId)
      requires Valid() && id in categories
      modifies this
      ensures Valid()
      ensures var gone := set p | p in old(posts) && old(posts)[p].category == id;
        && categories == old(categories) - {id}
        && posts == old(posts) - gone
        && comments == old(comments) - CascadeSet(old(comments), CommentsOn(old(comments), gone))
      ensures authors == old(authors) && tags == old(tags)
      ensures nextAuthor == old(nextAuthor) && nextCategory == old(nextCategory) && nextTag == old(nextTag)
      ensures nextPost == old(nextPost) && nextComment == old(nextComment) && clock == old(clock)
    {
      RemovePosts(set p | p in posts && posts[p].category == id);
      UniqueAfterRemove(categories, CategorySlug, {id});
      categories := categories - {id};
    }

    /** tag.delete(): the many-to-many links to the tag go, the posts stay. */
    method DeleteTag(id: TagId)
      requires Valid() && id in tags
      modifies this
      ensures Valid()
      ensures tags == old(tags) - {id}
      ensures posts.Keys == old(posts).Keys
      ensures forall p :: p in posts ==> posts[p] == old(posts)[p].(tags := old(posts)[p].tags - {id})
      ensures authors == old(authors) && categories == old(categories) && comments == old(comments)
      ensures nextAuthor == old(nextAuthor) && nextCategory == old(nextCategory) && nextTag == old(nextTag)
      ensures nextPost == old(nextPost) && nextComment == old(nextComment) && clock == old(clock)
    {
      UniqueAfterRemove(tags, TagSlug, {id});
      var unlinked := map p | p in posts :: posts[p].(tags := posts[p].tags - {id});
      assert Unique(unlinked, PostSlug) by {
        forall i, j | i in unlinked && j in unlinked && PostSlug(unlinked[i]) == PostSlug(unlinked[j])
          ensures i == j
        {
          assert PostSlug(posts[i]) == PostSlug(posts[j]);
        }
      }
      posts := unlinked;
      tags := tags - {id};
    }
  }
}
