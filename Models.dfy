/** The relational records of the blog (backend/app/models.py): the article,
    image and tag rows, their column defaults, tag-name uniqueness and the
    delete cascade from an article to its images. */
module Models {

  import opened Common

  /** Column default of `articles.author`. */
  const DefaultAuthor: string := "Itsour"

  /** Column default of `tags.color`. */
  const DefaultTagColor: string := "#667eea"

  datatype Tag = Tag(id: int, name: string, color: string)

  /** An image row; `articleId` is a nullable foreign key to its article. */
  datatype Image = Image(
    id: int,
    filename: string,
    filepath: string,
    altText: Option<string>,
    articleId: Option<int>,
    uploadedAt: nat)

  /** An article row. `title` and `content` are NOT NULL columns; the other
      columns are nullable. `category` is a plain string column, not a
      reference to another table. `tags` lists the ids of the tags linked to
      the article through the `article_tags` association table, in link order.
      Timestamps are readings of a logical clock. */
  datatype Article = Article(
    id: int,
    title: string,
    content: string,
    summary: Option<string>,
    author: Option<string>,
    category: Option<string>,
    isPublished: Option<bool>,
    viewCount: int,
    featured: Option<bool>,
    createdAt: nat,
    updatedAt: nat,
    tags: seq<int>)

  /** The value of a body field: the one sent (`null` included), or the
      default when the field was left out. This is how the schemas fill in
      their defaults and how an update's `setattr` keeps unsent columns. */
  function Supplied<T>(given: Field<T>, default: T): (v: T)
    ensures given.Present? ==> v == given.value
    ensures given.Omitted? ==> v == default
  {
    match given
    case Present(x) => x
    case Omitted => default
  }

  /** The value an ORM INSERT stores in a column that has a default: a `None`
      handed to the constructor is left out of the INSERT, exactly like an
      attribute that was never set, so the column default applies. */
  function Inserted<T>(given: Field<Option<T>>, default: Option<T>): (v: Option<T>)
    ensures given.Present? && given.value.Some? ==> v == given.value
    ensures given.Omitted? || given.value.None? ==> v == default
  {
    match given
    case Present(Some(x)) => Some(x)
    case _ => default
  }

  /** The row the ORM inserts for `Article(**values)` at logical time `now`:
      the given non-`None` values, and the column defaults for the rest. */
  function NewArticle(
    id: int, title: string, content: string,
    summary: Field<Option<string>>, author: Field<Option<string>>,
    category: Field<Option<string>>, isPublished: Field<Option<bool>>,
    featured: Field<Option<bool>>, tags: seq<int>, now: nat): (a: Article)
    ensures a.id == id && a.title == title && a.content == content && a.tags == tags
    ensures a.viewCount == 0
    ensures a.createdAt == now && a.updatedAt == now
    ensures a.summary == Inserted(summary, None)
    ensures a.author == Inserted(author, Some(DefaultAuthor))
    ensures a.category == Inserted(category, None)
    ensures a.isPublished == Inserted(isPublished, Some(true))
    ensures a.featured == Inserted(featured, Some(false))
    ensures a.author.Some? && a.isPublished.Some? && a.featured.Some?
  {
    Article(id, title, content,
      Inserted(summary, None), Inserted(author, Some(DefaultAuthor)),
      Inserted(category, None), Inserted(isPublished, Some(true)),
      0, Inserted(featured, Some(false)), now, now, tags)
  }

  /** A new tag row with the default color. */
  function NewTag(id: int, name: string): (t: Tag)
    ensures t.id == id && t.name == name && t.color == DefaultTagColor
  {
    Tag(id, name, DefaultTagColor)
  }

  /** The UNIQUE constraint on `tags.name`. */
  ghost predicate UniqueTagNames(tags: seq<Tag>)
  {
    forall i, j | 0 <= i < j < |tags| :: tags[i].name != tags[j].name
  }

  /** `SELECT ... FROM tags WHERE name = :name LIMIT 1`. */
  function FindTagByName(tags: seq<Tag>, name: string): (r: Option<Tag>)
    ensures r.Some? ==> r.value in tags && r.value.name == name
    ensures r.None? <==> forall i | 0 <= i < |tags| :: tags[i].name != name
  {
    if |tags| == 0 then None
    else if tags[0].name == name then Some(tags[0])
    else FindTagByName(tags[1..], name)
  }

  /** Under the unique constraint, the tag found by name is the one and only
      row with that name, so a lookup cannot tell rows with the same name apart. */
  lemma {:induction false} FindTagByNameIsTheRow(tags: seq<Tag>, k: nat)
    requires UniqueTagNames(tags)
    requires k < |tags|
    ensures FindTagByName(tags, tags[k].name) == Some(tags[k])
  {
    if k > 0 {
      assert tags[0].name != tags[k].name;
      assert tags[1..][k - 1] == tags[k];
      FindTagByNameIsTheRow(tags[1..], k - 1);
    }
  }

  /** A lookup that succeeds on a table still succeeds, with the same row,
      once more rows are appended after it. */
  lemma {:induction false} FindTagByNamePrefix(tags: seq<Tag>, more: seq<Tag>, name: string)
    requires FindTagByName(tags, name).Some?
    ensures FindTagByName(tags + more, name) == FindTagByName(tags, name)
  {
    assert |tags| > 0;
    if tags[0].name != name {
      assert (tags + more)[1..] == tags[1..] + more;
      FindTagByNamePrefix(tags[1..], more, name);
    }
  }

  /** Appending one row: an earlier match wins, otherwise the new row
      matches exactly when it carries the name. */
  lemma {:induction false} FindTagByNameAppend(tags: seq<Tag>, t: Tag, name: string)
    ensures FindTagByName(tags + [t], name) ==
      if FindTagByName(tags, name).Some? then FindTagByName(tags, name)
      else if t.name == name then Some(t) else None
  {
    if |tags| == 0 {
      assert tags + [t] == [t];
    } else {
      assert (tags + [t])[1..] == tags[1..] + [t];
      if tags[0].name != name {
        FindTagByNameAppend(tags[1..], t, name);
      }
    }
  }

  /** The primary key of `tags`: ids grow with insertion order. */
  ghost predicate TagIdsIncreasing(tags: seq<Tag>)
  {
    forall i, j | 0 <= i < j < |tags| :: tags[i].id < tags[j].id
  }

  function TagIds(tags: seq<Tag>): set<int>
  {
    set t | t in tags :: t.id
  }

  /** `SELECT ... FROM tags WHERE id = :id`. */
  function TagById(tags: seq<Tag>, id: int): (r: Option<Tag>)
    ensures r.Some? ==> r.value in tags && r.value.id == id
    ensures r.None? <==> id !in TagIds(tags)
  {
    if |tags| == 0 then None
    else if tags[0].id == id then Some(tags[0])
    else
      assert TagIds(tags) == {tags[0].id} + TagIds(tags[1..]) by {
        assert tags == [tags[0]] + tags[1..];
      }
      TagById(tags[1..], id)
  }

  /** With a primary key, looking a row up by its own id gives that row. */
  lemma TagByIdIsTheRow(tags: seq<Tag>, t: Tag)
    requires TagIdsIncreasing(tags)
    requires t in tags
    ensures TagById(tags, t.id) == Some(t)
  {
    var r := TagById(tags, t.id);
    var i :| 0 <= i < |tags| && tags[i] == t;
    var j :| 0 <= j < |tags| && tags[j] == r.value;
    assert i == j;
  }

  /** The `cascade="all, delete-orphan"` rule of `Article.images` and the
      `ON DELETE CASCADE` of `images.article_id`: deleting article `id` deletes
      exactly the images that belong to it; `CascadeDeleteImagesAppend` shows
      that the others keep their order. */
  function CascadeDeleteImages(images: seq<Image>, id: int): (r: seq<Image>)
    ensures |r| <= |images|
    ensures forall i | 0 <= i < |r| :: r[i] in images && r[i].articleId != Some(id)
    ensures forall i | 0 <= i < |images| :: images[i].articleId != Some(id) ==> images[i] in r
  {
    if |images| == 0 then []
    else
      var rest := CascadeDeleteImages(images[1..], id);
      assert forall i | 1 <= i < |images| :: images[i] == images[1..][i - 1];
      if images[0].articleId == Some(id) then rest else [images[0]] + rest
  }

  /** The cascade works image by image: on two runs of images it keeps what
      it keeps of the first run, followed by what it keeps of the second. */
  lemma {:induction false} CascadeDeleteImagesAppend(a: seq<Image>, b: seq<Image>, id: int)
    ensures CascadeDeleteImages(a + b, id) == CascadeDeleteImages(a, id) + CascadeDeleteImages(b, id)
  {
    if |a| == 0 {
      assert a + b == b;
    } else {
      assert (a + b)[1..] == a[1..] + b;
      CascadeDeleteImagesAppend(a[1..], b, id);
    }
  }
}
