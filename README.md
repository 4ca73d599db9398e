# Blog API model

A Dafny model of a small Django REST blog API: authors, categories, tags,
posts and threaded comments. The model covers the five tables and their
integrity rules (unique slugs and emails, NOT NULL and foreign keys, CASCADE
deletes), the slug rule of the models' `save()`, the serializers' validators,
slug rules and computed counts, the recursive `replies` field, and the
endpoints that list, page, update and delete by slug.

Modules, one per layer of the program:

- `Common`: `Option`, `Result`, and the id-ordered filter (`IdsBelow`) that
  stands for an ORM `filter(...)` query.
- `Records` (`apis/models.py`): the field layout of each model, the status
  choices and their default, the slug-if-empty rule of `save()`, and unique
  columns.
- `Cascade` (`apis/models.py`): the parent relation of comments and the set
  a CASCADE delete removes, collected by one ascending pass over the table.
- `Store` (`apis/models.py`): `class BlogStore`, the database. One map field
  per table, one id counter per table, and a logical clock for
  `auto_now_add` / `auto_now` that saving a post or inserting a comment
  advances. Each write method states the whole new state
  and keeps the invariant `Valid()`. That invariant covers unique columns,
  foreign keys, parent links pointing to older comments, and timestamps in
  the past.
- `Threads` (`apis/serializers.py`): the bounded ancestor walk of
  `validate_parent_comment`, the depth it guarantees, and the reply tree of
  `get_replies`.
- `Serializers` (`apis/serializers.py`): the email validators, the counts,
  the create / update slug rules, and comment validation.
- `Views` (`apis/views.py`): lookup by slug, the published post list
  (newest first, pages of ten), the filtered listings, and the PUT / DELETE /
  POST handlers.

`slugify` is Django's library function. It is an uninterpreted function
fixed when the store is built (`BlogStore.slugify`), and no property of it
is assumed.

Three points of the code's behaviour are easy to miss:

- Besides the `EmailField` format check, a comment's `author_email` only has
  to be non-empty and contain `@` (`apis/serializers.py:69-72`). Unlike the
  author rule, no `.` is required, so `a@localhost` is a valid comment email
  and an invalid author email.
- Create always stores `slugify(name)`, even when the payload carries a
  slug (`apis/serializers.py:27-29`).
- A post cannot be created over `POST /posts/` (see Findings).

## Model

| member | source | states |
|---|---|---|
| Records.ParseStatus | apis/models.py:42-45 | a submitted status is accepted exactly when it is "draft" or "published", and it maps back to that stored value |
| Records.ParseStatusRoundTrip | apis/models.py:42-45 | parsing a choice's stored value gives that choice back, and no other string parses to it |
| Records.SlugOnSaveStable | apis/models.py:19-22 | save() keeps a non-empty slug and fills a missing or empty one with slugify(name); saving the result again changes nothing (Tags and Post share the rule) |
| Records.UniqueAfterWrite | apis/models.py:48 | writing a row keeps a unique column unique exactly when no other row already holds its value |
| Common.IdsBelow | apis/views.py:91 | a filter returns exactly the rows that match, each once, in ascending id order |
| Common.IdsBelowAsSet | apis/serializers.py:24-25 | the rows of a filter, as a set, are the rows `.count()` counts, and there are as many |
| Common.MatchingAfterInsert | apis/serializers.py:24-25 | a new row adds one to a filtered count exactly when it matches |
| Common.MatchingAfterRemove | apis/serializers.py:24-25 | removing a row takes one from a filtered count exactly when it matched |
| Cascade.CollectCascade | apis/models.py:72 | the ascending scan collects exactly the deleted comments and every reply below them, transitively |
| Cascade.CascadeLeavesValidLinks | apis/models.py:72 | after a cascade no surviving comment points at a deleted parent |
| Cascade.CascadeIsClosed | apis/models.py:72 | a deleted comment's replies are deleted too |
| Cascade.ParentLinksAfterInsert | apis/models.py:72 | a new comment whose parent exists keeps every parent link valid and pointing to an older comment |
| Cascade.SubtreeAboveRoot | apis/models.py:72 | every comment below a root has an id no smaller than the root's |
| Store.UniqueAfterRemove | apis/models.py:48 | deleting rows keeps unique columns unique |
| Store.BlogStore.constructor | apis/models.py:5-72 | an empty database satisfies every integrity rule |
| Store.BlogStore.InsertAuthor | apis/models.py:5-8 | a new author is stored under a fresh id unless its email is taken, in which case nothing changes |
| Store.BlogStore.SaveCategory | apis/models.py:19-22 | save() stores the row with the slug rule applied; a slug used by another category fails with nothing changed |
| Store.BlogStore.SaveTag | apis/models.py:32-35 | the same for tags |
| Store.BlogStore.SavePost | apis/models.py:57-60 | save() is refused, changing nothing, exactly when author or category is missing, another post holds the slug, or author or category does not exist; otherwise it writes the row with the slug rule, keeps created_at and tags on update, stamps updated_at |
| Store.BlogStore.SetPostTags | apis/models.py:52 | a post's tag set is replaced when every tag exists, and nothing changes otherwise |
| Store.BlogStore.InsertComment | apis/models.py:66-72 | a comment is stored when its post and parent exist (any post's comment may be the parent), and nothing changes otherwise |
| Store.BlogStore.DeleteComment | apis/models.py:72 | deleting a comment removes exactly its reply subtree; every other comment stays |
| Store.BlogStore.RemovePosts | apis/models.py:67 | deleting posts removes their comments and every reply below those, and nothing else |
| Store.BlogStore.DeletePost | apis/models.py:67 | deleting a post removes it, its comments and their replies |
| Store.BlogStore.DeleteAuthor | apis/models.py:50 | deleting an author removes the author's posts and, through them, their comments |
| Store.BlogStore.DeleteCategory | apis/models.py:51 | deleting a category removes the category's posts and, through them, their comments |
| Store.BlogStore.DeleteTag | apis/models.py:52 | deleting a tag removes it from every post's tag set; no post is deleted |
| Threads.ValidateParentComment | apis/serializers.py:74-83 | a missing parent, or one with fewer than two ancestors, is accepted unchanged; one with two or more is refused; the loop ends even on cyclic links |
| Threads.AncestorStep | apis/serializers.py:78-80 | one more loop step follows one more parent link |
| Threads.AncestorAtCount | apis/serializers.py:78-82 | on an acyclic table the k-th ancestor exists exactly when the comment has at least k ancestors |
| Threads.ParentCheckMeansDepth | apis/serializers.py:74-83 | the parent check passes exactly when the new reply sits at depth 3 or less |
| Threads.ReplyKeepsNesting | apis/serializers.py:74-83 | inserting a reply that passed the check keeps every comment at depth 3 or less |
| Threads.CascadeKeepsNesting | apis/models.py:72 | a cascade delete never makes a surviving comment deeper |
| Threads.ThirdLevelIsLast | apis/serializers.py:74-83 | for C1 <- C2 <- C3, replies to C1 and C2 pass the check and a reply to C3 fails |
| Threads.BuildThread | apis/serializers.py:65-67 | a serialized comment's replies are exactly the comments whose parent is that comment, in id order |
| Threads.BuildForest | apis/serializers.py:66-67 | each reply is serialized with its own replies, one tree per reply, in order |
| Threads.ThreadShowsSubtree | apis/serializers.py:65-67 | the nested replies of a comment show exactly its reply subtree, at any depth, and none of them is older than the comment |
| Threads.ForestShowsSubtrees | apis/serializers.py:65-67 | the replies of a list of comments show exactly the union of their subtrees |
| Serializers.ValidateEmail | apis/serializers.py:10-13 | an author email is accepted exactly when it contains '@' and '.', and is returned unchanged |
| Serializers.ValidateAuthorEmail | apis/serializers.py:69-72 | a comment email is refused exactly when it is empty or has no '@' |
| Serializers.AuthorRuleIsStricter | apis/serializers.py:69-72 | every author email passes the comment rule, and "a@localhost" (a well-formed email address) passes only the comment rule |
| Serializers.CategoryPostCount | apis/serializers.py:24-25 | a category's post_count is the number of posts in it, drafts included, and is zero exactly when no post belongs to it |
| Serializers.TagPostCount | apis/serializers.py:45-46 | a tag's post_count is the number of posts whose tag set holds it, drafts included, and is zero exactly when no post carries it |
| Serializers.CommentsCount | apis/serializers.py:98-99 | a post's comments_count is the number of its comments, replies included, and is zero exactly when it has none |
| Serializers.TagCountAfterRetag | apis/serializers.py:45-46 | replacing a post's tag set lowers by one the count of each tag it loses, raises by one the count of each tag it gains, and leaves the rest |
| Serializers.TagCountAfterUnlink | apis/serializers.py:45-46 | deleting a tag unlinks it from every post: its count drops to zero and every other tag keeps its count |
| Serializers.CategoryCountAfterWrite | apis/serializers.py:24-25 | a new post raises its category's post_count by one and no other, and a deleted post lowers it by one |
| Serializers.CommentsCountAfterInsert | apis/serializers.py:98-99 | a new comment raises its post's comments_count by one and no other |
| Serializers.SlugRules | apis/serializers.py:31-34 | create stores slugify(name); update stores slugify(new name) when a name is given, and keeps a non-empty slug otherwise |
| Serializers.CreateCategory | apis/serializers.py:27-29 | the new category's slug is slugify(name); it fails, changing nothing, when another category has that slug |
| Serializers.UpdateCategory | apis/serializers.py:31-34 | absent fields keep their values and the slug follows the update rule; a slug clash fails with nothing changed |
| Serializers.CreateTag | apis/serializers.py:48-50 | the new tag's slug is slugify(name), unless that slug is taken |
| Serializers.UpdateTag | apis/serializers.py:52-55 | the slug is recomputed exactly when the name is given |
| Serializers.CreateWithoutOwnerFails | apis/serializers.py:101-103 | a post created without author and category always breaks NOT NULL |
| Serializers.CreateWithOwnerSucceeds | apis/serializers.py:101-103 | with an existing author and category the INSERT succeeds exactly when slugify(title) is free |
| Serializers.CreatePost | apis/serializers.py:101-103 | the new post has slug slugify(title), status draft unless given, no tags, and both timestamps set to the same clock reading |
| Serializers.PatchedPost | apis/serializers.py:105-108 | an update keeps author, category, tags and created_at, stamps updated_at, and takes slugify(title) when a title is given |
| Serializers.UpdatePost | apis/serializers.py:105-108 | the post becomes the patched row unless its slug clashes, in which case nothing changes |
| Serializers.CreateAuthor | apis/serializers.py:5-13 | refused on the email field, storing nothing, exactly when the email is already taken (the unique check of the writable `email` field) or lacks '@' or '.'; otherwise the author is stored |
| Serializers.CreateComment | apis/serializers.py:69-83 | refused with exactly the failing fields (unknown post, bad email, missing or too deep parent) and nothing stored; otherwise stored; depth 3 is never exceeded |
| Views.FindBySlug | apis/views.py:37 | the lookup returns a record holding the slug, or none when no record holds it |
| Views.FindBySlugExact | apis/views.py:37 | on a unique slug column the lookup returns exactly the record holding the slug |
| Views.InsertByDate | apis/views.py:16 | inserting a post into a newest-first list keeps it newest first and adds exactly that post |
| Views.SortNewestFirst | apis/views.py:16 | the sorted list is a permutation of the input, newest first, without repeats if the input has none |
| Views.PublishedPosts | apis/views.py:16 | the post list holds every published post once, no draft, newest first |
| Views.Page | apis/views.py:18-20 | page k exists when k is 1 or starts inside the list; it is the slice [10(k-1), min(10k, n)) and holds at most 10 items |
| Views.ItemOnItsPage | apis/views.py:18-20 | item i of the list is item i mod 10 of page i div 10 + 1, so the pages cover the list |
| Views.PagesDisjoint | apis/views.py:18-20 | two different pages share no post |
| Views.FifteenPosts | apis/views.py:18-20 | with 15 posts, page 2 holds the last 5, none of page 1's, and page 3 is not found |
| Views.PostList | apis/views.py:15-23 | a page of the post list holds at most 10 posts, all published |
| Views.PostListOrdered | apis/views.py:16-20 | across and within pages, no post is listed after a newer one |
| Views.PostDetail | apis/views.py:36-39 | the post holding the slug, or not found when there is none |
| Views.CategoryPostList | apis/views.py:89-93 | not found for an unknown slug; otherwise exactly the category's posts, drafts included |
| Views.TagPostList | apis/views.py:104-108 | not found for an unknown slug; otherwise exactly the posts carrying the tag, drafts included |
| Views.PostCommentList | apis/views.py:74-78 | not found for an unknown slug; otherwise exactly the post's comments, replies included, flat |
| Views.ListingsMatchCounts | apis/views.py:91 | each listing is as long as the post_count or comments_count shown for the same record |
| Views.ListAll | apis/views.py:83 | the plain listings return every row once, in id order |
| Views.PutPost | apis/views.py:41-49 | not found exactly for an unknown slug; a bad status is refused on that field; with a valid status the post becomes the patched row exactly when its slug does not clash with another post; every failure leaves the posts unchanged |
| Views.DeletePostBySlug | apis/views.py:51-54 | not found, changing nothing, exactly for an unknown slug; otherwise always succeeds, removing the post and its comment subtrees |
| Views.DeleteLeavesNoComments | apis/views.py:52-53 | after the delete the post has no comments left |
| Views.PostCreate | apis/views.py:25-30 | as written, creating a post always fails and stores nothing |
| Views.PostCreateFor | apis/views.py:25-30 | with author and category supplied, a post is created exactly when the status is valid, both exist and the slug is free |

## Left out

- HTTP and framework plumbing: response bodies and status codes, `IsAuthenticatedOrReadOnly`, the parsing of the `page` query parameter (the model takes the page number as an integer; `page=last` and non-numeric values are not modelled), and the `next` / `previous` links of the paginated response.
- `apis/urls.py` (routing only) and `apis/migrations/0001_initial.py` (a copy of the schema in `apis/models.py`) are not part of this model.
- The internals of `slugify`: it is uninterpreted, so no idempotence or character-set fact is assumed.
- Built-in field checks: `max_length`, the `EmailField` and `SlugField` formats, and DRF's refusal of blank strings and of missing required fields. Only the hand-written validators are modelled.
- Serialized output shapes (the nested author, category and tag snapshots) are not modelled. Listings return record ids.
- Timestamps are readings of a logical clock, not wall-clock time. Only saving a post and inserting a comment read and advance it, since only Post and Comment carry timestamps. One save takes one reading, so a new post's created_at and updated_at are equal in the model; Django reads the time once per field, so they can differ by microseconds.
- Store.BlogStore.SavePost: a row that breaks several constraints is reported on one of them, in the order NOT NULL, unique slug, foreign key. That is the order on PostgreSQL and SQLite, where Django creates foreign keys deferred to commit; other backends may name another constraint. Either way the write is refused and nothing changes.
- Views.PublishedPosts: posts with equal `created_at` come out in one fixed order. The database leaves their order unspecified.
- Common.IdsBelow: unordered querysets are given in ascending id order. The database promises no order.
- Cascade.CollectCascade: the set it removes is Django's, but not the order of the deletes, which the model does not observe.
- The `data['slug']` assignment in `PostDetailAPIView.put` (`apis/views.py:44`) is dropped, because `slug` is read-only in `PostSerializer`. The PUT slug follows the update rule alone.
- Serializers.SlugRules: when the stored slug is empty and the payload has no name, save() fills it again from slugify(current name). The slug is unchanged only when the stored slug is non-empty.
- Store.BlogStore.InsertComment: comment ids only grow, so a parent is always older than its reply. Parent links that form a cycle cannot arise through the API. Only `Threads.ValidateParentComment` is stated over arbitrary, possibly cyclic, tables.
- Concurrency, transactions and the 500 response to an `IntegrityError` are not modelled. A refused write is a `Result` error that leaves the store unchanged.
- `CommentListCreateAPIView` is routed at `posts/comments/`, after `posts/<slug:slug>/` (`apis/urls.py:7-8`), so Django sends that path to the post detail view with the slug "comments". Routing is not part of this model, and `Views.ListAll` treats the comment list as reachable.
- Writing tags through the API is not modelled: `tags` is read-only in `PostSerializer`, so only `Store.BlogStore.SetPostTags` changes them.

## Findings

| source | as written | input that shows it | evidently intended | confidence | as-written member | corrected member |
|---|---|---|---|---|---|---|
| apis/views.py:25-30 | `PostSerializer` declares `author` and `category` read-only (apis/serializers.py:87-89), so `create` saves a Post with neither. Both columns are NOT NULL foreign keys (apis/models.py:50-51), so the INSERT always raises an IntegrityError | `POST /posts/` with `{"title": "T", "content": "C"}` on any database | the handler passes the author and category to `serializer.save(...)`, and the post is created when both exist and `slugify(title)` is free | not executed | Views.PostCreate | Views.PostCreateFor |
