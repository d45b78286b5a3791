/** The request and response shapes of the article API
    (backend/app/schemas.py): the create body with its defaults, the update
    body whose every field is optional, and the two response projections. */
module Schemas {

  import opened Common
  import opened Models

  /** A create request after validation (`ArticleCreate`). */
  datatype ArticleCreate = ArticleCreate(
    title: string,
    content: string,
    summary: Option<string>,
    author: Option<string>,
    category: Option<string>,
    isPublished: bool,
    featured: bool,
    tagNames: seq<string>)

  /** A create request body as sent: every field may be left out, sent as
      `null`, or sent with a value. */
  datatype CreateBody = CreateBody(
    title: Field<Option<string>>,
    content: Field<Option<string>>,
    summary: Field<Option<string>>,
    author: Field<Option<string>>,
    category: Field<Option<string>>,
    isPublished: Field<Option<bool>>,
    featured: Field<Option<bool>>,
    tagNames: Field<Option<seq<string>>>)

  /** `title` and `content` have no default and are not optional; the other
      fields have defaults, and only `summary`, `author` and `category` accept
      `null`. */
  predicate IsValidCreateBody(b: CreateBody)
  {
    && b.title.Present? && b.title.value.Some?
    && b.content.Present? && b.content.value.Some?
    && b.isPublished != Present(None)
    && b.featured != Present(None)
    && b.tagNames != Present(None)
  }

  /** Validation of a create body against `ArticleCreate`: 422 when a
      required field is missing or a non-nullable one is `null`; otherwise
      the sent values, with the schema's defaults for the fields left out. */
  function ParseCreate(b: CreateBody): (r: Result<ArticleCreate>)
    ensures r.Err? <==> !IsValidCreateBody(b)
    ensures r.Err? ==> r.error == Unprocessable
    ensures r.Ok? ==> var c := r.value;
      && Present(Some(c.title)) == b.title
      && Present(Some(c.content)) == b.content
      && c.summary == Supplied(b.summary, None)
      && c.author == Supplied(b.author, Some(DefaultAuthor))
      && c.category == Supplied(b.category, None)
      && Some(c.isPublished) == Supplied(b.isPublished, Some(true))
      && Some(c.featured) == Supplied(b.featured, Some(false))
      && Some(c.tagNames) == Supplied(b.tagNames, Some([]))
  {
    if !IsValidCreateBody(b) then Err(Unprocessable)
    else
      Ok(ArticleCreate(
        b.title.value.value, b.content.value.value,
        Supplied(b.summary, None), Supplied(b.author, Some(DefaultAuthor)),
        Supplied(b.category, None),
        Supplied(b.isPublished, Some(true)).value,
        Supplied(b.featured, Some(false)).value,
        Supplied(b.tagNames, Some([])).value))
  }

  /** The update body (`ArticleUpdate`): every field is optional and nullable.
      Any combination of fields is a valid body, the empty one included. */
  datatype ArticleUpdate = ArticleUpdate(
    title: Field<Option<string>>,
    content: Field<Option<string>>,
    summary: Field<Option<string>>,
    author: Field<Option<string>>,
    category: Field<Option<string>>,
    isPublished: Field<Option<bool>>,
    featured: Field<Option<bool>>,
    tagNames: Field<Option<seq<string>>>)

  const EmptyUpdate: ArticleUpdate :=
    ArticleUpdate(Omitted, Omitted, Omitted, Omitted, Omitted, Omitted, Omitted, Omitted)

  /** Whether the body sends `null` for a NOT NULL column of `articles`. */
  predicate NullsRequiredColumn(u: ArticleUpdate)
  {
    u.title == Present(None) || u.content == Present(None)
  }

  /** One column assignment `setattr(row, key, value)`. */
  datatype Assignment =
    | SetTitle(title: string)
    | SetContent(content: string)
    | SetSummary(summary: Option<string>)
    | SetAuthor(author: Option<string>)
    | SetCategory(category: Option<string>)
    | SetPublished(isPublished: Option<bool>)
    | SetFeatured(featured: Option<bool>)

  /** The column an assignment writes, numbered in declaration order. */
  function ColumnOf(a: Assignment): nat
  {
    match a
    case SetTitle(_) => 0
    case SetContent(_) => 1
    case SetSummary(_) => 2
    case SetAuthor(_) => 3
    case SetCategory(_) => 4
    case SetPublished(_) => 5
    case SetFeatured(_) => 6
  }

  /** Whether the body mentions the `k`-th column field, `null` included. */
  predicate FieldSent(u: ArticleUpdate, k: nat)
  {
    match k
    case 0 => u.title.Present?
    case 1 => u.content.Present?
    case 2 => u.summary.Present?
    case 3 => u.author.Present?
    case 4 => u.category.Present?
    case 5 => u.isPublished.Present?
    case _ => u.featured.Present?
  }

  /** The assignment for the `k`-th column field of the body, in
      declaration order: one assignment to that column exactly when the
      body sent that field, none otherwise. */
  function SentField(u: ArticleUpdate, k: nat): (r: seq<Assignment>)
    requires !NullsRequiredColumn(u)
    requires k < 7
    ensures |r| <= 1
    ensures |r| == 1 <==> FieldSent(u, k)
    ensures |r| == 1 ==> ColumnOf(r[0]) == k
  {
    match k
    case 0 => if u.title.Present? then [SetTitle(u.title.value.value)] else []
    case 1 => if u.content.Present? then [SetContent(u.content.value.value)] else []
    case 2 => if u.summary.Present? then [SetSummary(u.summary.value)] else []
    case 3 => if u.author.Present? then [SetAuthor(u.author.value)] else []
    case 4 => if u.category.Present? then [SetCategory(u.category.value)] else []
    case 5 => if u.isPublished.Present? then [SetPublished(u.isPublished.value)] else []
    case _ => if u.featured.Present? then [SetFeatured(u.featured.value)] else []
  }

  /** `u.dict(exclude_unset=True, exclude={'tag_names'})`: one assignment per
      column field the body sent, `null` included, in declaration order.
      Only defined when the body does not null a NOT NULL column. */
  function SentColumns(u: ArticleUpdate): (r: seq<Assignment>)
    requires !NullsRequiredColumn(u)
    ensures |r| <= 7
    ensures u == EmptyUpdate ==> r == []
  {
    SentField(u, 0) + SentField(u, 1) + SentField(u, 2) + SentField(u, 3)
    + SentField(u, 4) + SentField(u, 5) + SentField(u, 6)
  }

  /** `ArticleResponse`: the full article, with its images and tags. */
  datatype ArticleResponse = ArticleResponse(
    id: int,
    title: string,
    content: string,
    summary: Option<string>,
    author: Option<string>,
    category: Option<string>,
    isPublished: bool,
    featured: bool,
    viewCount: int,
    createdAt: nat,
    updatedAt: nat,
    images: seq<Image>,
    tags: seq<Tag>)

  /** `ArticleListResponse`: the list entry, without content and images. */
  datatype ArticleListItem = ArticleListItem(
    id: int,
    title: string,
    summary: Option<string>,
    author: string,
    category: Option<string>,
    viewCount: int,
    featured: bool,
    createdAt: nat,
    tags: seq<Tag>)

  /** Serialising a row as `ArticleResponse`; response validation fails
      (`None`) when a non-nullable response field holds a stored `null`. */
  function ToResponse(a: Article, tags: seq<Tag>, images: seq<Image>): (r: Option<ArticleResponse>)
    ensures r.Some? <==> a.isPublished.Some? && a.featured.Some?
    ensures r.Some? ==> var v := r.value;
      && v.id == a.id && v.title == a.title && v.content == a.content
      && v.summary == a.summary && v.author == a.author && v.category == a.category
      && Some(v.isPublished) == a.isPublished && Some(v.featured) == a.featured
      && v.viewCount == a.viewCount && v.createdAt == a.createdAt && v.updatedAt == a.updatedAt
      && v.images == images && v.tags == tags
  {
    if a.isPublished.None? || a.featured.None? then None
    else Some(ArticleResponse(a.id, a.title, a.content, a.summary, a.author, a.category,
      a.isPublished.value, a.featured.value, a.viewCount, a.createdAt, a.updatedAt,
      images, tags))
  }

  /** Serialising a row as `ArticleListResponse`, where `author` and
      `featured` may not be `null`. */
  function ToListItem(a: Article, tags: seq<Tag>): (r: Option<ArticleListItem>)
    ensures r.Some? <==> a.author.Some? && a.featured.Some?
    ensures r.Some? ==> var v := r.value;
      && v.id == a.id && v.title == a.title && v.summary == a.summary
      && Some(v.author) == a.author && v.category == a.category
      && v.viewCount == a.viewCount && Some(v.featured) == a.featured
      && v.createdAt == a.createdAt && v.tags == tags
  {
    if a.author.None? || a.featured.None? then None
    else Some(ArticleListItem(a.id, a.title, a.summary, a.author.value, a.category,
      a.viewCount, a.featured.value, a.createdAt, tags))
  }
}
