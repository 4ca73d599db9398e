/** The rules the serializers add on top of the models: the two email
    validators, the comment checks, the slug rule of create and update for
    Category, Tags and Post, and the computed post_count / comments_count. */
module Serializers {
  import opened Common
  import opened Records
  import opened Cascade
  import opened Store
  import opened Threads

  /** The payload field a validation error is reported on. */
  datatype Field = EmailField | PostField | AuthorEmailField | ParentCommentField | StatusField

  /** What a request can fail with: a missing record, field errors, or a write the database refused. */
  datatype ApiError = NotFound | Invalid(fields: set<Field>) | Integrity(cause: StoreError)

  /** AuthorModelSerializer.validate_email: the value needs both '@' and '.'. */
  function ValidateEmail(value: string): (r: Result<string, Field>)
    ensures r.Ok? <==> '@' in value && '.' in value
    ensures r.Ok? ==> r.value == value
    ensures r.Err? ==> r.error == EmailField
  {
    if '@' !in value || '.' !in value then Err(EmailField) else Ok(value)
  }

  /** CommentSerializer.validate_author_email: the value must be non-empty
      and contain '@'; no '.' is asked for. */
  function ValidateAuthorEmail(value: string): (r: Result<string, Field>)
    ensures r.Err? <==> value == [] || '@' !in value
    ensures r.Ok? ==> r.value == value
    ensures r.Err? ==> r.error == AuthorEmailField
  {
    if value == [] || '@' !in value then Err(AuthorEmailField) else Ok(value)
  }

  /** Every email an author may use is one a commenter may use, but not the
      other way round: "a@localhost", which the EmailField format also
      accepts, is refused only by the author rule. */
  lemma AuthorRuleIsStricter(value: string)
    ensures ValidateEmail(value).Ok? ==> ValidateAuthorEmail(value).Ok?
    ensures ValidateAuthorEmail("a@localhost").Ok? && ValidateEmail("a@localhost").Err?
  {
    assert '@' in "a@localhost" && '.' !in "a@localhost";
  }

  /** The posts of a category: the filter behind CategorySerializer.get_post_count. */
  function InCategory(c: CategoryId): Post -> bool
  {
    (p: Post) => p.category == c
  }

  /** The posts carrying a tag: the filter behind TagsSerializer.get_post_count. */
  function WithTag(t: TagId): Post -> bool
  {
    (p: Post) => t in p.tags
  }

  /** The comments of a post: the filter behind PostSerializer.get_comments_count,
      the one-post case of the filter a post delete starts from. */
  function OnPost(p: PostId): Comment -> bool
  {
    OnPosts({p})
  }

  /** CategorySerializer.get_post_count: every post of the category, whatever its status. */
  function CategoryPostCount(posts: map<PostId, Post>, c: CategoryId): (r: nat)
    ensures r == 0 <==> forall p :: p in posts ==> posts[p].category != c
  {
    assert forall p :: p in posts && posts[p].category == c ==> p in Matching(posts, InCategory(c));
    |Matching(posts, InCategory(c))|
  }

  /** TagsSerializer.get_post_count: every post carrying the tag, whatever its status. */
  function TagPostCount(posts: map<PostId, Post>, t: TagId): (r: nat)
    ensures r == 0 <==> forall p :: p in posts ==> t !in posts[p].tags
  {
    assert forall p :: p in posts && t in posts[p].tags ==> p in Matching(posts, WithTag(t));
    |Matching(posts, WithTag(t))|
  }

  /** PostSerializer.get_comments_count: top-level comments and replies alike. */
  function CommentsCount(comments: map<CommentId, Comment>, p: PostId): (r: nat)
    ensures r == 0 <==> forall c :: c in comments ==> comments[c].post != p
  {
    assert forall c :: c in comments && comments[c].post == p ==> c in Matching(comments, OnPost(p));
    |Matching(comments, OnPost(p))|
  }

  /** A new post raises the post_count of its category by one and leaves
      every other category's count alone; deleting one lowers it again. */
  lemma CategoryCountAfterWrite(posts: map<PostId, Post>, k: PostId, row: Post, c: CategoryId)
    ensures k !in posts ==>
      CategoryPostCount(posts[k := row], c) == CategoryPostCount(posts, c) + (if row.category == c then 1 else 0)
    ensures k in posts ==>
      CategoryPostCount(posts - {k}, c) == CategoryPostCount(posts, c) - (if posts[k].category == c then 1 else 0)
  {
    if k !in posts {
      MatchingAfterInsert(posts, InCategory(c), k, row);
    } else {
      MatchingAfterRemove(posts, InCategory(c), k);
    }
  }

  /** Replacing one post's tag set (SetPostTags) moves that post out of the
      count of every tag it loses and into the count of every tag it gains;
      no other post is counted differently. */
  lemma TagCountAfterRetag(posts: map<PostId, Post>, k: PostId, tagIds: set<TagId>, t: TagId)
    requires k in posts
    ensures TagPostCount(posts[k := posts[k].(tags := tagIds)], t)
            == TagPostCount(posts, t) - (if t in posts[k].tags then 1 else 0) + (if t in tagIds then 1 else 0)
  {
    var row := posts[k].(tags := tagIds);
    MatchingAfterRemove(posts, WithTag(t), k);
    MatchingAfterInsert(posts - {k}, WithTag(t), k, row);
    assert (posts - {k})[k := row] == posts[k := row];
  }

  /** Deleting a tag (DeleteTag) unlinks it from every post: its own count
      drops to zero and every other tag keeps its count. */
  lemma TagCountAfterUnlink(posts: map<PostId, Post>, unlinked: map<PostId, Post>, gone: TagId, t: TagId)
    requires unlinked.Keys == posts.Keys
    requires forall p :: p in posts ==> unlinked[p] == posts[p].(tags := posts[p].tags - {gone})
    ensures TagPostCount(unlinked, gone) == 0
    ensures t != gone ==> TagPostCount(unlinked, t) == TagPostCount(posts, t)
  {
    if t != gone {
      assert Matching(unlinked, WithTag(t)) == Matching(posts, WithTag(t));
    }
  }

  /** A new comment raises the comments_count of its post by one and no other post's. */
  lemma CommentsCountAfterInsert(comments: map<CommentId, Comment>, k: CommentId, row: Comment, p: PostId)
    requires k !in comments
    ensures CommentsCount(comments[k := row], p)
            == CommentsCount(comments, p) + (if row.post == p then 1 else 0)
  {
    MatchingAfterInsert(comments, OnPost(p), k, row);
  }

  /** The slug the update serializers end up storing: slugify(new name) when the
      payload has a name, otherwise the current slug (refilled by save() only
      if it is empty). */
  function SlugAfterUpdate(current: string, currentName: string, newName: Option<string>,
                           slugify: string -> string): string
  {
    var name := if newName.Some? then newName.value else currentName;
    SlugOnSave(if newName.Some? then Some(slugify(newName.value)) else Some(current), name, slugify)
  }

  /** Create always stores slugify(name); update recomputes the slug exactly
      when the payload has a name, and keeps a set slug otherwise. */
  lemma SlugRules(current: string, currentName: string, newName: Option<string>, name: string,
                  slugify: string -> string)
    ensures SlugOnSave(Some(slugify(name)), name, slugify) == slugify(name)
    ensures newName.Some? ==> SlugAfterUpdate(current, currentName, newName, slugify) == slugify(newName.value)
    ensures newName.None? && current != "" ==> SlugAfterUpdate(current, currentName, newName, slugify) == current
    ensures newName.None? && current == "" ==> SlugAfterUpdate(current, currentName, newName, slugify) == slugify(currentName)
  {
  }

  /** CategorySerializer.create: the slug is always slugify(name). */
  method CreateCategory(db: BlogStore, name: string, description: string) returns (r: Result<CategoryId, ApiError>)
    requires db.Valid()
    modifies db
    ensures db.Valid()
    ensures r.Ok? <==> !Taken(old(db.categories), CategorySlug, db.slugify(name), None)
    ensures r.Ok? ==> r.value !in old(db.categories)
                      && db.categories == old(db.categories)[r.value := Category(name, db.slugify(name), description)]
    ensures r.Err? ==> r.error == Integrity(UniqueViolation) && db.categories == old(db.categories)
    ensures db.authors == old(db.authors) && db.tags == old(db.tags)
    ensures db.posts == old(db.posts) && db.comments == old(db.comments)
  {
    var saved := db.SaveCategory(None, name, Some(db.slugify(name)), description);
    r := if saved.Ok? then Ok(saved.value) else Err(Integrity(saved.error));
  }

  /** CategorySerializer.update: fields absent from the payload keep their values. */
  method UpdateCategory(db: BlogStore, id: CategoryId, name: Option<string>, description: Option<string>)
    returns (r: Result<CategoryId, ApiError>)
    requires db.Valid() && id in db.categories
    modifies db
    ensures db.Valid()
    ensures var was := old(db.categories)[id];
      var row := Category(if name.Some? then name.value else was.name,
                          SlugAfterUpdate(was.slug, was.name, name, db.slugify),
                          if description.Some? then description.value else was.description);
      && (r.Ok? <==> !Taken(old(db.categories), CategorySlug, row.slug, Some(id)))
      && (r.Ok? ==> r.value == id && db.categories == old(db.categories)[id := row])
      && (r.Err? ==> r.error == Integrity(UniqueViolation) && db.categories == old(db.categories))
    ensures db.authors == old(db.authors) && db.tags == old(db.tags)
    ensures db.posts == old(db.posts) && db.comments == old(db.comments)
  {
    var was := db.categories[id];
    var slug := if name.Some? then db.slugify(name.value) else was.slug;
    var saved := db.SaveCategory(Some(id), if name.Some? then name.value else was.name, Some(slug),
                                 if description.Some? then description.value else was.description);
    r := if saved.Ok? then Ok(saved.value) else Err(Integrity(saved.error));
  }

  /** TagsSerializer.create. */
  method CreateTag(db: BlogStore, name: string) returns (r: Result<TagId, ApiError>)
    requires db.Valid()
    modifies db
    ensures db.Valid()
    ensures r.Ok? <==> !Taken(old(db.tags), TagSlug, db.slugify(name), None)
    ensures r.Ok? ==> r.value !in old(db.tags) && db.tags == old(db.tags)[r.value := Tag(name, db.slugify(name))]
    ensures r.Err? ==> r.error == Integrity(UniqueViolation) && db.tags == old(db.tags)
    ensures db.authors == old(db.authors) && db.categories == old(db.categories)
    ensures db.posts == old(db.posts) && db.comments == old(db.comments)
  {
    var saved := db.SaveTag(None, name, Some(db.slugify(name)));
    r := if saved.Ok? then Ok(saved.value) else Err(Integrity(saved.error));
  }

  /** TagsSerializer.update. */
  method UpdateTag(db: BlogStore, id: TagId, name: Option<string>) returns (r: Result<TagId, ApiError>)
    requires db.Valid() && id in db.tags
    modifies db
    ensures db.Valid()
    ensures var was := old(db.tags)[id];
      var row := Tag(if name.Some? then name.value else was.name, SlugAfterUpdate(was.slug, was.name, name, db.slugify));
      && (r.Ok? <==> !Taken(old(db.tags), TagSlug, row.slug, Some(id)))
      && (r.Ok? ==> r.value == id && db.tags == old(db.tags)[id := row])
      && (r.Err? ==> r.error == Integrity(UniqueViolation) && db.tags == old(db.tags))
    ensures db.authors == old(db.authors) && db.categories == old(db.categories)
    ensures db.posts == old(db.posts) && db.comments == old(db.comments)
  {
    var was := db.tags[id];
    var slug := if name.Some? then db.slugify(name.value) else was.slug;
    var saved := db.SaveTag(Some(id), if name.Some? then name.value else was.name, Some(slug));
    r := if saved.Ok? then Ok(saved.value) else Err(Integrity(saved.error));
  }

  /** The instance PostSerializer.create hands to the model: slug from the
      title, status defaulted, and author and category as the caller of
      save() supplies them (the serializer declares both read-only). */
  function PostCreateInstance(title: string, content: string, status: Option<Status>,
                              author: Option<AuthorId>, category: Option<CategoryId>,
                              slugify: string -> string): PostInstance
  {
    PostInstance(title, Some(slugify(title)), content, author, category,
                 if status.Some? then status.value else DefaultStatus)
  }

  /** With author and category left out, as the read-only nested serializers
      leave them, the INSERT always breaks the NOT NULL constraint. */
  lemma CreateWithoutOwnerFails(authorIds: set<AuthorId>, categoryIds: set<CategoryId>, posts: map<PostId, Post>,
                                title: string, content: string, status: Option<Status>, slugify: string -> string)
    ensures var inst := PostCreateInstance(title, content, status, None, None, slugify);
            PostSaveError(authorIds, categoryIds, posts, None, SlugOnSave(inst.slug, title, slugify), inst)
              == Some(NotNullViolation)
  {
  }

  /** With an existing author and category, the INSERT succeeds exactly when
      slugify(title) is not yet used by a post. */
  lemma CreateWithOwnerSucceeds(authorIds: set<AuthorId>, categoryIds: set<CategoryId>, posts: map<PostId, Post>,
                                title: string, content: string, status: Option<Status>,
                                author: AuthorId, category: CategoryId, slugify: string -> string)
    requires author in authorIds && category in categoryIds
    ensures var inst := PostCreateInstance(title, content, status, Some(author), Some(category), slugify);
            (PostSaveError(authorIds, categoryIds, posts, None, SlugOnSave(inst.slug, title, slugify), inst).None?
             <==> !Taken(posts, PostSlug, slugify(title), None))
  {
  }

  /** PostSerializer.create: the new post's slug is slugify(title), its status
      defaults to draft, created_at and updated_at are the current clock. */
  method CreatePost(db: BlogStore, title: string, content: string, status: Option<Status>,
                    author: Option<AuthorId>, category: Option<CategoryId>)
    returns (r: Result<PostId, ApiError>)
    requires db.Valid()
    modifies db
    ensures db.Valid()
    ensures var inst := PostCreateInstance(title, content, status, author, category, db.slugify);
      var err := PostSaveError(old(db.authors).Keys, old(db.categories).Keys, old(db.posts), None, db.slugify(title), inst);
      && (r.Ok? <==> err.None?)
      && (r.Err? ==> r.error == Integrity(err.value) && db.posts == old(db.posts))
      && (r.Ok? ==> r.value !in old(db.posts) && db.posts == old(db.posts)[r.value := Post(
            title, db.slugify(title), content, author.value, category.value, {}, old(db.clock), old(db.clock),
            if status.Some? then status.value else Draft)])
    ensures db.authors == old(db.authors) && db.categories == old(db.categories)
    ensures db.tags == old(db.tags) && db.comments == old(db.comments)
  {
    var inst := PostCreateInstance(title, content, status, author, category, db.slugify);
    var saved := db.SavePost(None, inst);
    r := if saved.Ok? then Ok(saved.value) else Err(Integrity(saved.error));
  }

  /** The row PostSerializer.update writes for a validated partial payload:
      fields absent from the payload keep their values, the slug follows the
      update rule, updated_at is the current clock; created_at, owners and
      tags are kept. */
  function PatchedPost(was: Post, title: Option<string>, content: Option<string>, status: Option<Status>,
                       slugify: string -> string, clock: nat): (row: Post)
    ensures row.author == was.author && row.category == was.category && row.tags == was.tags
    ensures row.createdAt == was.createdAt && row.updatedAt == clock
    ensures title.None? && content.None? && status.None? && was.slug != "" ==> row == was.(updatedAt := clock)
    ensures title.Some? ==> row.title == title.value && row.slug == slugify(title.value)
  {
    was.(
      title := if title.Some? then title.value else was.title,
      slug := SlugAfterUpdate(was.slug, was.title, title, slugify),
      content := if content.Some? then content.value else was.content,
      status := if status.Some? then status.value else was.status,
      updatedAt := clock)
  }

  /** PostSerializer.update: the only way it can fail is a title whose slug
      another post already has. */
  method UpdatePost(db: BlogStore, id: PostId, title: Option<string>, content: Option<string>, status: Option<Status>)
    returns (r: Result<PostId, ApiError>)
    requires db.Valid() && id in db.posts
    modifies db
    ensures db.Valid()
    ensures var row := PatchedPost(old(db.posts)[id], title, content, status, db.slugify, old(db.clock));
      && (r.Ok? <==> !Taken(old(db.posts), PostSlug, row.slug, Some(id)))
      && (r.Ok? ==> r.value == id && db.posts == old(db.posts)[id := row])
      && (r.Err? ==> r.error == Integrity(UniqueViolation) && db.posts == old(db.posts))
    ensures db.authors == old(db.authors) && db.categories == old(db.categories)
    ensures db.tags == old(db.tags) && db.comments == old(db.comments)
  {
    var was := db.posts[id];
    var inst := PostInstance(
      if title.Some? then title.value else was.title,
      Some(if title.Some? then db.slugify(title.value) else was.slug),
      if content.Some? then content.value else was.content,
      Some(was.author), Some(was.category),
      if status.Some? then status.value else was.status);
    var saved := db.SavePost(Some(id), inst);
    r := if saved.Ok? then Ok(saved.value) else Err(Integrity(saved.error));
  }

  /** AuthorModelSerializer validation and create. `email` is a writable
      unique model field, so the serializer checks uniqueness itself and
      reports a taken email on the email field, before validate_email runs
      and before any INSERT. Either failure refuses the payload on that
      field; a payload that passes is always stored. */
  method CreateAuthor(db: BlogStore, name: string, email: string, bio: string) returns (r: Result<AuthorId, ApiError>)
    requires db.Valid()
    modifies db
    ensures db.Valid()
    ensures r.Err? <==> Taken(old(db.authors), AuthorEmail, email, None) || ValidateEmail(email).Err?
    ensures r.Err? ==> r == Err(Invalid({EmailField})) && db.authors == old(db.authors)
    ensures r.Ok? ==> r.value !in old(db.authors) && db.authors == old(db.authors)[r.value := Author(name, email, bio)]
    ensures db.categories == old(db.categories) && db.tags == old(db.tags)
    ensures db.posts == old(db.posts) && db.comments == old(db.comments)
  {
    if Taken(db.authors, AuthorEmail, email, None) {
      return Err(Invalid({EmailField}));
    }
    var checked := ValidateEmail(email);
    if checked.Err? {
      return Err(Invalid({checked.error}));
    }
    var saved := db.InsertAuthor(Author(name, email, bio));
    r := Ok(saved.value);
  }

  /** The fields a comment payload is refused on: a post id that names no
      post, an author_email the validator refuses, a parent id that names no
      comment or whose chain is already two ancestors long. */
  function CommentErrors(postIds: set<PostId>, comments: map<CommentId, Comment>,
                         post: PostId, authorEmail: string, parent: Option<CommentId>): set<Field>
  {
    (if post !in postIds then {PostField} else {})
    + (if ValidateAuthorEmail(authorEmail).Err? then {AuthorEmailField} else {})
    + (if parent.Some? && (parent.value !in comments || AncestorAt(comments, parent.value, 2).Some?)
       then {ParentCommentField} else {})
  }

  /** CommentSerializer validation and create: every field is checked, and
      only a payload without errors is written. The parent may belong to
      another post. A comment written this way keeps every thread at depth 3
      or less. */
  method CreateComment(db: BlogStore, post: PostId, author: string, authorEmail: string, content: string,
                       parent: Option<CommentId>)
    returns (r: Result<CommentId, ApiError>)
    requires db.Valid()
    modifies db
    ensures db.Valid()
    ensures var errors := CommentErrors(old(db.posts).Keys, old(db.comments), post, authorEmail, parent);
      && (r.Err? <==> errors != {})
      && (r.Err? ==> r.error == Invalid(errors) && db.comments == old(db.comments))
      && (r.Ok? ==> r.value !in old(db.comments)
                    && db.comments == old(db.comments)[r.value := Comment(post, author, authorEmail, old(db.clock), content, parent)])
    ensures old(NestingWithinThree(db.comments)) ==> NestingWithinThree(db.comments)
    ensures db.authors == old(db.authors) && db.categories == old(db.categories)
    ensures db.tags == old(db.tags) && db.posts == old(db.posts)
  {
    var errors: set<Field> := {};
    if post !in db.posts {
      errors := errors + {PostField};
    }
    var email := ValidateAuthorEmail(authorEmail);
    if email.Err? {
      errors := errors + {email.error};
    }
    if parent.Some? && parent.value !in db.comments {
      errors := errors + {ParentCommentField};
    } else {
      var checked := ValidateParentComment(db.comments, parent);
      if checked.Err? {
        errors := errors + {ParentCommentField};
      }
    }
    if errors != {} {
      return Err(Invalid(errors));
    }
    ghost var before := db.comments;
    var saved := db.InsertComment(CommentInstance(post, author, authorEmail, content, parent));
    if NestingWithinThree(before) {
      ReplyKeepsNesting(before, saved.value, db.comments[saved.value]);
    }
    r := Ok(saved.value);
  }
}
