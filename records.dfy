/** The five tables of the blog (Author, Category, Tags, Post, Comment), their
    field defaults, the slug rule of the models' own save(), and the
    uniqueness constraints the database enforces. */
module Records {
  import opened Common

  type AuthorId = nat
  type CategoryId = nat
  type TagId = nat
  type PostId = nat
  type CommentId = nat

  /** The two choices of Post.status. */
  datatype Status = Draft | Published

  /** A new post is a draft unless the payload says otherwise. */
  const DefaultStatus: Status := Draft

  /** The value stored in the status column for each choice. */
  function StatusValue(s: Status): string
  {
    match s
    case Draft => "draft"
    case Published => "published"
  }

  /** The choice check on a submitted status: only the two stored values are accepted. */
  function ParseStatus(v: string): (r: Option<Status>)
    ensures r.Some? <==> v == "draft" || v == "published"
    ensures r.Some? ==> StatusValue(r.value) == v
  {
    if v == "draft" then Some(Draft)
    else if v == "published" then Some(Published)
    else None
  }

  /** Parsing the stored value of a choice gives that choice back, and only it. */
  lemma ParseStatusRoundTrip(s: Status, v: string)
    ensures ParseStatus(StatusValue(s)) == Some(s)
    ensures ParseStatus(v) == Some(s) ==> v == StatusValue(s)
  {
    match s
    case Draft =>
    case Published =>
  }

  datatype Author = Author(name: string, email: string, bio: string)

  datatype Category = Category(name: string, slug: string, description: string)

  datatype Tag = Tag(name: string, slug: string)

  /** createdAt and updatedAt are readings of the store's logical clock. */
  datatype Post = Post(
    title: string,
    slug: string,
    content: string,
    author: AuthorId,
    category: CategoryId,
    tags: set<TagId>,
    createdAt: nat,
    updatedAt: nat,
    status: Status)

  /** `parent` is the optional parent_comment link; nothing ties the parent's
      post to this comment's post. */
  datatype Comment = Comment(
    post: PostId,
    author: string,
    authorEmail: string,
    createdAt: nat,
    content: string,
    parent: Option<CommentId>)

  /** The slug a model's save() writes: the instance's slug if it is set and
      non-empty, otherwise slugify of its name (or title). */
  function SlugOnSave(slug: Option<string>, source: string, slugify: string -> string): string
  {
    if slug.None? || slug.value == "" then slugify(source) else slug.value
  }

  /** Saving an instance a second time, unchanged, keeps the slug the first save chose,
      whatever slugify returns (even the empty string). */
  lemma SlugOnSaveStable(slug: Option<string>, source: string, slugify: string -> string)
    ensures SlugOnSave(Some(SlugOnSave(slug, source, slugify)), source, slugify)
            == SlugOnSave(slug, source, slugify)
    ensures slug.Some? && slug.value != "" ==> SlugOnSave(slug, source, slugify) == slug.value
    ensures (slug.None? || slug == Some("")) ==> SlugOnSave(slug, source, slugify) == slugify(source)
  {
  }

  /** Whether a record other than `self` already uses `key` in a unique column. */
  predicate Taken<V>(m: map<nat, V>, column: V -> string, key: string, self: Option<nat>)
  {
    exists k :: k in m && Some(k) != self && column(m[k]) == key
  }

  /** A unique column: no two records share a value. */
  ghost predicate Unique<V>(m: map<nat, V>, column: V -> string)
  {
    forall i, j {:trigger column(m[i]), column(m[j])} :: i in m && j in m && column(m[i]) == column(m[j]) ==> i == j
  }

  function AuthorEmail(a: Author): string { a.email }
  function CategorySlug(c: Category): string { c.slug }
  function TagSlug(t: Tag): string { t.slug }
  function PostSlug(p: Post): string { p.slug }

  /** Writing `v` under `k` keeps a unique column unique exactly when no
      other record already holds the value. */
  lemma UniqueAfterWrite<V>(m: map<nat, V>, column: V -> string, k: nat, v: V)
    requires Unique(m, column)
    ensures Unique(m[k := v], column) <==> !Taken(m, column, column(v), Some(k))
  {
    var m' := m[k := v];
    if !Taken(m, column, column(v), Some(k)) {
      forall i, j | i in m' && j in m' && column(m'[i]) == column(m'[j])
        ensures i == j
      {
        if i != k && j != k {
          assert column(m[i]) == column(m[j]);
        }
      }
    } else {
      var o :| o in m && Some(o) != Some(k) && column(m[o]) == column(v);
      assert o in m' && k in m' && column(m'[o]) == column(m'[k]);
    }
  }
}
