/** The state-changing article handlers of backend/app/routes.py over one
    store: the article, tag and image tables, the id sequences of the three
    tables, a logical clock for the timestamp columns, and the search index
    the handlers keep in step. Each handler is one transaction: it either
    commits all of its writes or, on an error, none of them. */
module Routes {

  import opened Common
  import opened Strings
  import opened Models
  import opened Schemas
  import opened Search
  import opened Queries

  // ===== Tag names =====

  /** What one name contributes: itself stripped of surrounding
      whitespace, or nothing when it is blank. */
  function Cleaned(name: string): (r: seq<string>)
    ensures |r| <= 1
  {
    if Strip(name) == "" then [] else [Strip(name)]
  }

  /** The names `get_or_create_tags` resolves: each name stripped of
      surrounding whitespace, blank names skipped, in input order. */
  function CleanNames(names: seq<string>): (r: seq<string>)
    ensures |r| <= |names|
  {
    if |names| == 0 then []
    else CleanNames(names[..|names| - 1]) + Cleaned(names[|names| - 1])
  }

  /** The concatenation of `f(x)` over the elements `x` of `xs`, in order. */
  function FlatMap<T, U>(f: T -> seq<U>, xs: seq<T>): seq<U>
  {
    if |xs| == 0 then [] else FlatMap(f, xs[..|xs| - 1]) + f(xs[|xs| - 1])
  }

  lemma {:induction false} FlatMapAppend<T, U>(f: T -> seq<U>, a: seq<T>, b: seq<T>)
    ensures FlatMap(f, a + b) == FlatMap(f, a) + FlatMap(f, b)
    decreases |b|
  {
    if |b| > 0 {
      var n := |b| - 1;
      assert (a + b)[..|a| + n] == a + b[..n];
      assert (a + b)[|a| + n] == b[n];
      FlatMapAppend(f, a, b[..n]);
    } else {
      assert a + b == a;
    }
  }

  lemma {:induction false} CleanNamesIsFlatMap(names: seq<string>)
    ensures CleanNames(names) == FlatMap(Cleaned, names)
  {
    if |names| > 0 {
      CleanNamesIsFlatMap(names[..|names| - 1]);
      CleanNamesLast(names);
    }
  }

  /** Every resolved name is non-blank and already stripped, so a second
      pass of cleaning would change nothing. */
  lemma {:induction false} CleanNamesStripped(names: seq<string>)
    ensures forall k | 0 <= k < |CleanNames(names)| ::
      CleanNames(names)[k] != "" && Strip(CleanNames(names)[k]) == CleanNames(names)[k]
  {
    if |names| > 0 {
      var n := |names| - 1;
      var front := CleanNames(names[..n]);
      CleanNamesStripped(names[..n]);
      StripIdempotent(names[n]);
      assert CleanNames(names) == front + Cleaned(names[n]);
      forall k | 0 <= k < |CleanNames(names)|
        ensures CleanNames(names)[k] != "" && Strip(CleanNames(names)[k]) == CleanNames(names)[k]
      {
        if k < |front| {
          assert CleanNames(names)[k] == front[k];
        } else {
          assert CleanNames(names)[k] == Strip(names[n]);
        }
      }
    }
  }

  /** Cleaning works name by name: the names of a concatenation are the
      names of each part, in order. */
  lemma CleanNamesAppend(a: seq<string>, b: seq<string>)
    ensures CleanNames(a + b) == CleanNames(a) + CleanNames(b)
  {
    CleanNamesIsFlatMap(a + b);
    CleanNamesIsFlatMap(a);
    CleanNamesIsFlatMap(b);
    FlatMapAppend(Cleaned, a, b);
  }

  /** Cleaning one more name extends the cleaned prefix by that name,
      stripped, unless it is blank. */
  lemma CleanNamesStep(names: seq<string>, i: nat)
    requires i < |names|
    ensures CleanNames(names[..i + 1]) == CleanNames(names[..i]) + Cleaned(names[i])
  {
    assert names[..i + 1][..i] == names[..i];
  }

  /** A list of names resolves to no tag at all exactly when every name is
      blank (empty or whitespace only). */
  lemma CleanNamesEmpty(names: seq<string>)
    ensures CleanNames(names) == [] <==> forall i | 0 <= i < |names| :: AllSpace(names[i])
  {
    if forall i | 0 <= i < |names| :: AllSpace(names[i]) {
      CleanNamesOfBlanks(names);
    } else {
      var i :| 0 <= i < |names| && !AllSpace(names[i]);
      CleanNamesOfWord(names, i);
    }
  }

  lemma {:induction false} CleanNamesOfBlanks(names: seq<string>)
    requires forall i | 0 <= i < |names| :: AllSpace(names[i])
    ensures CleanNames(names) == []
  {
    if |names| > 0 {
      var n := |names| - 1;
      var front := names[..n];
      assert forall i | 0 <= i < n :: front[i] == names[i];
      CleanNamesOfBlanks(front);
      CleanedEmpty(names[n]);
    }
  }

  lemma {:induction false} CleanNamesOfWord(names: seq<string>, i: nat)
    requires i < |names| && !AllSpace(names[i])
    ensures |CleanNames(names)| > 0
  {
    var n := |names| - 1;
    var front := names[..n];
    CleanNamesLast(names);
    if i == n {
      CleanedEmpty(names[n]);
    } else {
      assert front[i] == names[i];
      CleanNamesOfWord(front, i);
    }
  }

  /** One unfolding of `CleanNames`, stated where nothing else is in scope. */
  lemma CleanNamesLast(names: seq<string>)
    requires |names| > 0
    ensures CleanNames(names) == CleanNames(names[..|names| - 1]) + Cleaned(names[|names| - 1])
  {
  }

  lemma CleanedEmpty(name: string)
    ensures Cleaned(name) == [] <==> AllSpace(name)
  {
    StripTrimsWhitespace(name);
  }

  /** `ids` are the tags the cleaned names resolve to in `tags`: one id per
      name, in order, each the id of the tag row with exactly that name. */
  ghost predicate Resolves(tags: seq<Tag>, clean: seq<string>, ids: seq<int>)
  {
    && |ids| == |clean|
    && forall k | 0 <= k < |ids| ::
         FindTagByName(tags, clean[k]).Some? && FindTagByName(tags, clean[k]).value.id == ids[k]
  }

  /** The tag rows linked to an article, in link order; links to a missing
      tag are dropped. */
  function TagRows(tags: seq<Tag>, ids: seq<int>): (r: seq<Tag>)
    ensures |r| <= |ids|
    ensures forall j | 0 <= j < |r| :: r[j] in tags
    ensures (forall id | id in ids :: id in TagIds(tags)) ==>
              |r| == |ids| && forall j | 0 <= j < |r| :: r[j].id == ids[j]
  {
    if |ids| == 0 then []
    else
      var n := |ids| - 1;
      var rest := TagRows(tags, ids[..n]);
      assert forall id | id in ids[..n] :: id in ids;
      match TagById(tags, ids[n])
      case Some(t) => rest + [t]
      case None => rest
  }

  /** The tags an article shows after its names were resolved: exactly the
      cleaned names, in order. */
  lemma ResolvedTagNames(tags: seq<Tag>, clean: seq<string>, ids: seq<int>)
    requires TagIdsIncreasing(tags)
    requires Resolves(tags, clean, ids)
    ensures var r := TagRows(tags, ids);
      |r| == |clean| && forall j | 0 <= j < |r| :: r[j].name == clean[j]
  {
    forall id | id in ids ensures id in TagIds(tags) {
      var k :| 0 <= k < |ids| && ids[k] == id;
      assert FindTagByName(tags, clean[k]).value in tags;
    }
    var r := TagRows(tags, ids);
    forall j | 0 <= j < |r| ensures r[j].name == clean[j] {
      var t := FindTagByName(tags, clean[j]).value;
      TagByIdIsTheRow(tags, t);
      TagByIdIsTheRow(tags, r[j]);
    }
  }

  // ===== Partial update =====

  /** The columns the update payload cannot reach: the primary key, the
      view counter, both timestamps and the tag links. */
  predicate KeepsUnsettable(a: Article, b: Article)
  {
    a.id == b.id && a.viewCount == b.viewCount && a.createdAt == b.createdAt
    && a.updatedAt == b.updatedAt && a.tags == b.tags
  }

  /** One `setattr(db_article, key, value)`: it writes the assignment's own
      column and nothing the payload cannot name. */
  function Assign(a: Article, x: Assignment): (r: Article)
    ensures KeepsUnsettable(a, r)
  {
    match x
    case SetTitle(v) => a.(title := v)
    case SetContent(v) => a.(content := v)
    case SetSummary(v) => a.(summary := v)
    case SetAuthor(v) => a.(author := v)
    case SetCategory(v) => a.(category := v)
    case SetPublished(v) => a.(isPublished := v)
    case SetFeatured(v) => a.(featured := v)
  }

  /** The assignments applied one after another, first to last (the
      `for key, value in update_data.items()` loop). */
  function ApplyAll(a: Article, xs: seq<Assignment>): (r: Article)
    ensures KeepsUnsettable(a, r)
  {
    if |xs| == 0 then a else Assign(ApplyAll(a, xs[..|xs| - 1]), xs[|xs| - 1])
  }

  lemma {:induction false} ApplyAllAppend(a: Article, xs: seq<Assignment>, ys: seq<Assignment>)
    ensures ApplyAll(a, xs + ys) == ApplyAll(ApplyAll(a, xs), ys)
    decreases |ys|
  {
    if |ys| == 0 {
      assert xs + ys == xs;
    } else {
      var n := |ys| - 1;
      assert (xs + ys)[..|xs| + n] == xs + ys[..n];
      ApplyAllAppend(a, xs, ys[..n]);
    }
  }

  /** The row `after` is `before` with exactly the column fields the body
      sent: a sent value (an explicit `null` included) replaces the column,
      an omitted field leaves it, and the id, the view counter, the
      timestamps and the tag links are not touched. */
  ghost predicate ColumnsPatched(before: Article, u: ArticleUpdate, after: Article)
  {
    && Some(after.title) == Supplied(u.title, Some(before.title))
    && Some(after.content) == Supplied(u.content, Some(before.content))
    && after.summary == Supplied(u.summary, before.summary)
    && after.author == Supplied(u.author, before.author)
    && after.category == Supplied(u.category, before.category)
    && after.isPublished == Supplied(u.isPublished, before.isPublished)
    && after.featured == Supplied(u.featured, before.featured)
    && after.id == before.id && after.viewCount == before.viewCount
    && after.createdAt == before.createdAt && after.updatedAt == before.updatedAt
    && after.tags == before.tags
  }

  /** An optional single assignment applied to a row. */
  lemma ApplyAtMostOne(a: Article, p: seq<Assignment>)
    requires |p| <= 1
    ensures ApplyAll(a, p) == if p == [] then a else Assign(a, p[0])
  {
    if |p| == 1 {
      assert p[..0] == [];
    }
  }

  /** The assignment for the `k`-th column field sets that column to the
      sent value, or leaves the row as it is when the field was omitted. */
  lemma PatchStep(a: Article, u: ArticleUpdate, k: nat)
    requires !NullsRequiredColumn(u) && k < 7
    ensures var b := ApplyAll(a, SentField(u, k));
      match k
      case 0 => b == a.(title := Supplied(u.title, Some(a.title)).value)
      case 1 => b == a.(content := Supplied(u.content, Some(a.content)).value)
      case 2 => b == a.(summary := Supplied(u.summary, a.summary))
      case 3 => b == a.(author := Supplied(u.author, a.author))
      case 4 => b == a.(category := Supplied(u.category, a.category))
      case 5 => b == a.(isPublished := Supplied(u.isPublished, a.isPublished))
      case _ => b == a.(featured := Supplied(u.featured, a.featured))
  {
    ApplyAtMostOne(a, SentField(u, k));
  }

  /** The `setattr` loop over `exclude_unset` sets exactly the fields sent. */
  lemma PayloadPatchesColumns(row: Article, u: ArticleUpdate)
    requires !NullsRequiredColumn(u)
    ensures ColumnsPatched(row, u, ApplyAll(row, SentColumns(u)))
  {
    var q1 := SentField(u, 0);
    var q2 := q1 + SentField(u, 1);
    var q3 := q2 + SentField(u, 2);
    var q4 := q3 + SentField(u, 3);
    var q5 := q4 + SentField(u, 4);
    var q6 := q5 + SentField(u, 5);
    var q7 := q6 + SentField(u, 6);
    assert SentColumns(u) == q7;
    ApplyAllAppend(row, q1, SentField(u, 1));
    ApplyAllAppend(row, q2, SentField(u, 2));
    ApplyAllAppend(row, q3, SentField(u, 3));
    ApplyAllAppend(row, q4, SentField(u, 4));
    ApplyAllAppend(row, q5, SentField(u, 5));
    ApplyAllAppend(row, q6, SentField(u, 6));
    var r1 := ApplyAll(row, q1);
    var r2 := ApplyAll(r1, SentField(u, 1));
    var r3 := ApplyAll(r2, SentField(u, 2));
    var r4 := ApplyAll(r3, SentField(u, 3));
    var r5 := ApplyAll(r4, SentField(u, 4));
    var r6 := ApplyAll(r5, SentField(u, 5));
    var r7 := ApplyAll(r6, SentField(u, 6));
    PatchStep(row, u, 0);
    PatchStep(r1, u, 1);
    PatchStep(r2, u, 2);
    PatchStep(r3, u, 3);
    PatchStep(r4, u, 4);
    PatchStep(r5, u, 5);
    PatchStep(r6, u, 6);
  }

  /** Whether the columns of two rows hold the same values, so that the ORM
      emits no UPDATE and `updated_at`'s `onupdate` does not fire. */
  predicate SameColumns(a: Article, b: Article)
  {
    a.title == b.title && a.content == b.content && a.summary == b.summary
    && a.author == b.author && a.category == b.category
    && a.isPublished == b.isPublished && a.featured == b.featured
    && a.viewCount == b.viewCount
  }

  /** The `setattr` loop of `update_article`, one sent field at a time. */
  method ApplyPayload(row: Article, u: ArticleUpdate) returns (r: Article)
    requires !NullsRequiredColumn(u)
    ensures ColumnsPatched(row, u, r)
  {
    r := ApplyEach(row, SentColumns(u));
    PayloadPatchesColumns(row, u);
  }

  /** The `setattr` loop itself, over any list of assignments. */
  method ApplyEach(row: Article, data: seq<Assignment>) returns (r: Article)
    ensures r == ApplyAll(row, data)
  {
    r := row;
    var i := 0;
    while i < |data|
      invariant i <= |data|
      invariant r == ApplyAll(row, data[..i])
    {
      assert data[..i + 1][..i] == data[..i];
      r := Assign(r, data[i]);
      i := i + 1;
    }
    assert data[..i] == data;
  }

  // ===== Responses =====

  /** The images of article `id`, in table order (`Article.images`). */
  function ImagesOf(images: seq<Image>, id: int): (r: seq<Image>)
    ensures forall i | 0 <= i < |r| :: r[i] in images && r[i].articleId == Some(id)
    ensures forall i | 0 <= i < |images| :: images[i].articleId == Some(id) ==> images[i] in r
    ensures (forall i | 0 <= i < |images| :: images[i].articleId != Some(id)) ==> r == []
  {
    if |images| == 0 then []
    else
      var rest := ImagesOf(images[1..], id);
      assert forall i | 1 <= i < |images| :: images[i] == images[1..][i - 1];
      if images[0].articleId == Some(id) then [images[0]] + rest else rest
  }

  /** The article, its images and its tag rows serialised as
      `ArticleResponse`; a stored `null` in a non-nullable response field
      makes the serialisation fail after the commit. */
  function Render(a: Article, tags: seq<Tag>, images: seq<Image>): (r: Result<ArticleResponse>)
    ensures r.Ok? <==> a.isPublished.Some? && a.featured.Some?
    ensures r.Err? ==> r.error == ResponseInvalid
    ensures r.Ok? ==> Some(r.value) == ToResponse(a, TagRows(tags, a.tags), ImagesOf(images, a.id))
  {
    match ToResponse(a, TagRows(tags, a.tags), ImagesOf(images, a.id))
    case Some(v) => Ok(v)
    case None => Err(ResponseInvalid)
  }

  /** The rows serialised as a `List[ArticleListResponse]`: the whole list
      fails when one row holds a `null` author or featured flag. */
  function RenderList(rows: seq<Article>, tags: seq<Tag>): (r: Result<seq<ArticleListItem>>)
    ensures r.Ok? <==> forall i | 0 <= i < |rows| :: rows[i].author.Some? && rows[i].featured.Some?
    ensures r.Err? ==> r.error == ResponseInvalid
    ensures r.Ok? ==> |r.value| == |rows| && forall i | 0 <= i < |rows| ::
              Some(r.value[i]) == ToListItem(rows[i], TagRows(tags, rows[i].tags))
  {
    if |rows| == 0 then Ok([])
    else
      var n := |rows| - 1;
      var rest := RenderList(rows[..n], tags);
      assert forall i | 0 <= i < n :: rows[..n][i] == rows[i];
      match ToListItem(rows[n], TagRows(tags, rows[n].tags))
      case None => Err(ResponseInvalid)
      case Some(v) =>
        if rest.Ok? then
          assert forall i | 0 <= i < n :: (rest.value + [v])[i] == rest.value[i];
          Ok(rest.value + [v])
        else rest
  }

  /** `get_articles` as served: the page of `ListArticles`, each row as a
      list entry; the whole answer is a 500 when one row on the page holds a
      `null` author or featured flag. */
  function GetArticles(articles: seq<Article>, tags: seq<Tag>, q: ListQuery)
    : (r: Result<seq<ArticleListItem>>)
    ensures r == RenderList(ListArticles(articles, tags, q), tags)
    ensures var rows := ListArticles(articles, tags, q);
      r.Ok? <==> forall i | 0 <= i < |rows| :: rows[i].author.Some? && rows[i].featured.Some?
    ensures r.Ok? ==> |r.value| <= q.limit
    ensures r.Ok? ==> forall i | 0 <= i < |r.value| ::
              exists a | a in articles :: a.id == r.value[i].id && Matches(a, tags, q)
  {
    var rows := ListArticles(articles, tags, q);
    RenderedRowsMatch(articles, tags, q, rows);
    RenderList(rows, tags)
  }

  /** Every entry of a rendered page is a stored row that matches the
      filters. */
  lemma RenderedRowsMatch(articles: seq<Article>, tags: seq<Tag>, q: ListQuery, rows: seq<Article>)
    requires forall i | 0 <= i < |rows| :: rows[i] in articles && Matches(rows[i], tags, q)
    ensures var r := RenderList(rows, tags);
      r.Ok? ==> forall i | 0 <= i < |r.value| ::
        exists a | a in articles :: a.id == r.value[i].id && Matches(a, tags, q)
  {
    var r := RenderList(rows, tags);
    if r.Ok? {
      forall i | 0 <= i < |r.value|
        ensures exists a | a in articles :: a.id == r.value[i].id && Matches(a, tags, q)
      {
        assert r.value[i].id == rows[i].id;
      }
    }
  }

  /** `search` as served: the query string must not be empty (422); an
      empty or failed engine answer gives an empty list; otherwise every
      stored row that was a hit, each as a list entry, or a 500 when one of
      them holds a `null` author or featured flag. */
  function SearchRoute(articles: seq<Article>, tags: seq<Tag>, q: string, response: QueryResponse)
    : (r: Result<seq<ArticleListItem>>)
    ensures q == "" ==> r == Err(Unprocessable)
    ensures q != "" ==> r == RenderList(SearchRows(articles, response), tags)
    ensures q != "" && response.QueryFailed? ==> r == Ok([])
    ensures r.Ok? ==> forall i | 0 <= i < |r.value| ::
              exists a | a in articles :: a.id == r.value[i].id && a.id in SearchArticles(response)
  {
    if q == "" then Err(Unprocessable)
    else
      var rows := SearchRows(articles, response);
      var r := RenderList(rows, tags);
      assert r.Ok? ==> forall i | 0 <= i < |rows| :: r.value[i].id == rows[i].id;
      r
  }

  /** A search whose every stored hit serialises answers with all of them:
      each row whose id the engine returned is in the answer. */
  lemma SearchFindsEveryHit(articles: seq<Article>, tags: seq<Tag>, q: string,
                            response: QueryResponse, k: nat)
    requires q != "" && k < |articles| && articles[k].id in SearchArticles(response)
    requires forall a | a in articles :: a.author.Some? && a.featured.Some?
    ensures var r := SearchRoute(articles, tags, q, response);
      && r.Ok?
      && exists j | 0 <= j < |r.value| :: Some(r.value[j]) == ToListItem(articles[k], TagRows(tags, articles[k].tags))
  {
    var rows := SearchRows(articles, response);
    var j :| 0 <= j < |rows| && rows[j] == articles[k];
    var r := RenderList(rows, tags);
    assert r.Ok?;
    assert Some(r.value[j]) == ToListItem(rows[j], TagRows(tags, rows[j].tags));
  }

  /** The row after one more view at clock reading `now`: the counter goes
      up by one and, the counter being a column, `updated_at` is stamped. */
  function Viewed(a: Article, now: nat): (r: Article)
    ensures r.viewCount == a.viewCount + 1 && r.updatedAt == now
    ensures r.(viewCount := a.viewCount, updatedAt := a.updatedAt) == a
  {
    a.(viewCount := a.viewCount + 1, updatedAt := now)
  }

  /** One view raises the dashboard's total views by exactly one. */
  lemma ViewRaisesTotalViews(articles: seq<Article>, k: nat, now: nat)
    requires k < |articles|
    ensures SumViews(articles[k := Viewed(articles[k], now)]) == SumViews(articles) + 1
  {
    SumViewsReplace(articles, k, Viewed(articles[k], now));
  }

  const DeletedMessage: string := "Article deleted successfully"

  /** The path an uploaded file is stored under: `uploads/<article id>_<filename>`. */
  function UploadPath(articleId: nat, filename: string): (p: string)
    ensures |p| >= 10 + |filename|
    ensures p[..8] == "uploads/" && p[|p| - |filename| - 1] == '_'
    ensures p[8..|p| - |filename| - 1] == DecimalString(articleId)
    ensures p[|p| - |filename|..] == filename
  {
    "uploads/" + DecimalString(articleId) + "_" + filename
  }

  /** The path names its article: uploads of the same file name for two
      different articles are stored under different paths. */
  lemma UploadPathNamesArticle(m: nat, n: nat, filename: string)
    requires UploadPath(m, filename) == UploadPath(n, filename)
    ensures m == n
  {
    var p := UploadPath(m, filename);
    assert DecimalString(m) == p[8..|p| - |filename| - 1] == DecimalString(n);
  }

  // ===== Table constraints =====

  /** The tables and sequences of the store, as one value. */
  datatype Tables = Tables(
    articles: seq<Article>,
    tags: seq<Tag>,
    images: seq<Image>,
    nextArticleId: int,
    nextTagId: int,
    nextImageId: int,
    clock: nat)

  ghost predicate RowValid(a: Article, st: Tables)
  {
    && 1 <= a.id < st.nextArticleId
    && a.createdAt <= a.updatedAt < st.clock
    && a.viewCount >= 0
    && forall t | t in a.tags :: t in TagIds(st.tags)
  }

  ghost predicate ImageValid(img: Image, st: Tables)
  {
    && 1 <= img.id < st.nextImageId
    && (img.articleId.Some? ==> img.articleId.value in ArticleIds(st.articles))
  }

  /** The constraints the handlers keep: primary keys increase with
      insertion and stay below their sequence, timestamps lie in the past of
      the clock, view counters are not negative, tag names are unique, and
      every link points at a row that exists. */
  ghost predicate Constraints(st: Tables)
  {
    && 1 <= st.nextArticleId && 1 <= st.nextTagId && 1 <= st.nextImageId
    && IdsIncreasing(st.articles) && CreatedIncreasing(st.articles)
    && (forall i | 0 <= i < |st.articles| :: RowValid(st.articles[i], st))
    && TagIdsIncreasing(st.tags) && UniqueTagNames(st.tags)
    && (forall j | 0 <= j < |st.tags| :: 1 <= st.tags[j].id < st.nextTagId)
    && (forall j | 0 <= j < |st.images| :: ImageValid(st.images[j], st))
  }

  /** The rows, each valid and after every earlier row in id and in
      creation time; stated row by row, from the last one back. */
  ghost predicate RowsValid(rows: seq<Article>, st: Tables)
  {
    |rows| == 0 ||
      var n := |rows| - 1;
      && RowsValid(rows[..n], st)
      && RowValid(rows[n], st)
      && forall i | 0 <= i < n :: rows[i].id < rows[n].id && rows[i].createdAt < rows[n].createdAt
  }

  /** The tag rows, each after every earlier row in id, with a name no
      earlier row has, and an id the sequence has handed out. */
  ghost predicate TagsValid(tags: seq<Tag>, nextTagId: int)
  {
    |tags| == 0 ||
      var n := |tags| - 1;
      && TagsValid(tags[..n], nextTagId)
      && 1 <= tags[n].id < nextTagId
      && forall j | 0 <= j < n :: tags[j].id < tags[n].id && tags[j].name != tags[n].name
  }

  ghost predicate ImagesValid(images: seq<Image>, st: Tables)
  {
    |images| == 0 || (ImagesValid(images[..|images| - 1], st) && ImageValid(images[|images| - 1], st))
  }

  /** `Constraints`, stated one table at a time. */
  ghost predicate TablesValid(st: Tables)
  {
    && 1 <= st.nextArticleId && 1 <= st.nextTagId && 1 <= st.nextImageId
    && RowsValid(st.articles, st)
    && TagsValid(st.tags, st.nextTagId)
    && ImagesValid(st.images, st)
  }

  lemma {:induction false} RowsValidMeans(rows: seq<Article>, st: Tables)
    ensures RowsValid(rows, st) <==>
      IdsIncreasing(rows) && CreatedIncreasing(rows) && forall i | 0 <= i < |rows| :: RowValid(rows[i], st)
  {
    if |rows| > 0 {
      var n := |rows| - 1;
      RowsValidMeans(rows[..n], st);
      assert forall i | 0 <= i < n :: rows[..n][i] == rows[i];
    }
  }

  lemma {:induction false} TagsValidMeans(tags: seq<Tag>, nextTagId: int)
    ensures TagsValid(tags, nextTagId) <==>
      TagIdsIncreasing(tags) && UniqueTagNames(tags)
      && forall j | 0 <= j < |tags| :: 1 <= tags[j].id < nextTagId
  {
    if |tags| > 0 {
      var n := |tags| - 1;
      TagsValidMeans(tags[..n], nextTagId);
      assert forall j | 0 <= j < n :: tags[..n][j] == tags[j];
    }
  }

  lemma {:induction false} ImagesValidMeans(images: seq<Image>, st: Tables)
    ensures ImagesValid(images, st) <==> forall j | 0 <= j < |images| :: ImageValid(images[j], st)
  {
    if |images| > 0 {
      var n := |images| - 1;
      ImagesValidMeans(images[..n], st);
      assert forall j | 0 <= j < n :: images[..n][j] == images[j];
    }
  }

  /** The table-by-table statement and the quantified one agree. */
  lemma TablesValidMeans(st: Tables)
    ensures TablesValid(st) <==> Constraints(st)
  {
    RowsValidMeans(st.articles, st);
    TagsValidMeans(st.tags, st.nextTagId);
    ImagesValidMeans(st.images, st);
  }

  lemma ValidRow(st: Tables, k: nat)
    requires TablesValid(st) && k < |st.articles|
    ensures RowValid(st.articles[k], st)
  {
    TablesValidMeans(st);
  }

  /** Row validity survives sequences and a clock that move on and tag
      rows that are added. */
  lemma {:induction false} RowsValidMono(rows: seq<Article>, st: Tables, st': Tables)
    requires st.nextArticleId <= st'.nextArticleId && st.clock <= st'.clock
    requires TagIds(st.tags) <= TagIds(st'.tags)
    requires RowsValid(rows, st)
    ensures RowsValid(rows, st')
  {
    if |rows| > 0 {
      RowsValidMono(rows[..|rows| - 1], st, st');
    }
  }

  /** Image validity survives a sequence that moves on and article rows that
      are added. */
  lemma {:induction false} ImagesValidMono(images: seq<Image>, st: Tables, st': Tables)
    requires st.nextImageId <= st'.nextImageId
    requires ArticleIds(st.articles) <= ArticleIds(st'.articles)
    requires ImagesValid(images, st)
    ensures ImagesValid(images, st')
  {
    if |images| > 0 {
      ImagesValidMono(images[..|images| - 1], st, st');
    }
  }

  /** A new tag with the next id and a name no row has keeps the constraints. */
  lemma InsertTagValid(st: Tables, t: Tag)
    requires TablesValid(st)
    requires t.id == st.nextTagId && FindTagByName(st.tags, t.name).None?
    ensures TablesValid(st.(tags := st.tags + [t], nextTagId := st.nextTagId + 1))
  {
    var st' := st.(tags := st.tags + [t], nextTagId := st.nextTagId + 1);
    assert TagIds(st.tags) <= TagIds(st'.tags);
    RowsValidMono(st.articles, st, st');
    ImagesValidMono(st.images, st, st');
    TagsValidMeans(st.tags, st.nextTagId);
    TagsValidMeans(st.tags, st'.nextTagId);
    assert st'.tags[..|st.tags|] == st.tags;
  }

  /** Every stored row lies below the id sequence and the clock. */
  lemma RowsBelow(rows: seq<Article>, st: Tables)
    requires RowsValid(rows, st)
    ensures forall i | 0 <= i < |rows| :: rows[i].id < st.nextArticleId && rows[i].createdAt < st.clock
  {
    RowsValidMeans(rows, st);
  }

  lemma IdsBelow(rows: seq<Article>, bound: int)
    requires forall i | 0 <= i < |rows| :: rows[i].id < bound
    ensures forall x | x in ArticleIds(rows) :: x < bound
  {
    forall x | x in ArticleIds(rows) ensures x < bound {
      var b :| b in rows && b.id == x;
      var i :| 0 <= i < |rows| && rows[i] == b;
    }
  }

  /** A new row with the next id, stamped with the clock, keeps the
      constraints once the id sequence and the clock move on. */
  lemma InsertRowValid(st: Tables, a: Article)
    requires TablesValid(st)
    requires a.id == st.nextArticleId && a.createdAt == a.updatedAt == st.clock
    requires a.viewCount >= 0 && forall t | t in a.tags :: t in TagIds(st.tags)
    ensures a.id !in ArticleIds(st.articles)
    ensures TablesValid(st.(articles := st.articles + [a], nextArticleId := st.nextArticleId + 1,
                            clock := st.clock + 1))
  {
    var st' := st.(articles := st.articles + [a], nextArticleId := st.nextArticleId + 1,
                   clock := st.clock + 1);
    var n := |st.articles|;
    RowsBelow(st.articles, st);
    IdsBelow(st.articles, a.id);
    RowsValidMono(st.articles, st, st');
    assert st'.articles[..n] == st.articles;
    assert ArticleIds(st.articles) <= ArticleIds(st'.articles);
    ImagesValidMono(st.images, st, st');
  }

  /** No image belongs to an id the sequence has not handed out yet. */
  lemma NoImagesOfNewRow(st: Tables, id: int)
    requires TablesValid(st)
    requires id >= st.nextArticleId
    ensures ImagesOf(st.images, id) == []
  {
    TablesValidMeans(st);
    forall j | 0 <= j < |st.images| ensures st.images[j].articleId != Some(id) {
      assert ImageValid(st.images[j], st);
      if st.images[j].articleId.Some? {
        var x := st.images[j].articleId.value;
        var a :| a in st.articles && a.id == x;
        var i :| 0 <= i < |st.articles| && st.articles[i] == a;
        assert RowValid(st.articles[i], st);
      }
    }
  }

  /** Rewriting row `k` without touching its id or creation time, with a
      valid counter, links to existing tags and a timestamp before the new
      clock reading, keeps the constraints. */
  lemma ReplaceRowValid(st: Tables, k: nat, b: Article, clock: nat)
    requires TablesValid(st)
    requires k < |st.articles|
    requires b.id == st.articles[k].id && b.createdAt == st.articles[k].createdAt
    requires st.clock <= clock && b.createdAt <= b.updatedAt < clock
    requires b.viewCount >= 0 && forall t | t in b.tags :: t in TagIds(st.tags)
    ensures TablesValid(st.(articles := st.articles[k := b], clock := clock))
  {
    var st' := st.(articles := st.articles[k := b], clock := clock);
    TablesValidMeans(st);
    TablesValidMeans(st');
    ReplaceKeepsOrder(st.articles, k, b);
    forall i | 0 <= i < |st'.articles| ensures RowValid(st'.articles[i], st') {
      assert RowValid(st.articles[i], st);
    }
    forall j | 0 <= j < |st.images| ensures ImageValid(st.images[j], st') {
      assert ImageValid(st.images[j], st);
    }
  }

  /** Removing row `k` together with the images of its id keeps the
      constraints, and its id is gone. */
  lemma RemoveRowValid(st: Tables, k: nat)
    requires TablesValid(st)
    requires k < |st.articles|
    ensures var id := st.articles[k].id;
      var st' := st.(articles := st.articles[..k] + st.articles[k + 1..],
                     images := CascadeDeleteImages(st.images, id));
      TablesValid(st') && id !in ArticleIds(st'.articles)
  {
    var id := st.articles[k].id;
    var st' := st.(articles := st.articles[..k] + st.articles[k + 1..],
                   images := CascadeDeleteImages(st.images, id));
    TablesValidMeans(st);
    TablesValidMeans(st');
    RemoveKeepsOrder(st.articles, k);
    RemoveDropsId(st.articles, k);
    forall i | 0 <= i < |st'.articles| ensures RowValid(st'.articles[i], st') {
      var m := if i < k then i else i + 1;
      assert st'.articles[i] == st.articles[m];
      assert RowValid(st.articles[m], st);
    }
    forall j | 0 <= j < |st'.images| ensures ImageValid(st'.images[j], st') {
      var m :| 0 <= m < |st.images| && st.images[m] == st'.images[j];
      assert ImageValid(st.images[m], st);
    }
  }

  /** A new image row with the next id, owned by an existing article,
      keeps the constraints. */
  lemma InsertImageValid(st: Tables, img: Image)
    requires TablesValid(st)
    requires img.id == st.nextImageId
    requires img.articleId.Some? && img.articleId.value in ArticleIds(st.articles)
    ensures TablesValid(st.(images := st.images + [img], nextImageId := st.nextImageId + 1,
                            clock := st.clock + 1))
  {
    var st' := st.(images := st.images + [img], nextImageId := st.nextImageId + 1,
                   clock := st.clock + 1);
    TablesValidMeans(st);
    TablesValidMeans(st');
    forall i | 0 <= i < |st.articles| ensures RowValid(st.articles[i], st') {
      assert RowValid(st.articles[i], st);
    }
    forall j | 0 <= j < |st'.images| ensures ImageValid(st'.images[j], st') {
      if j < |st.images| {
        assert ImageValid(st.images[j], st);
      }
    }
  }

  /** The tables after a successful update of row `k` with body `u`: the
      other rows as they were, the sent column fields set, the links
      replaced when `tag_names` was sent as a list, and `updated_at` stamped
      with the clock reading `clock` exactly when a column value changed. */
  ghost predicate Updated(oldArticles: seq<Article>, oldTags: seq<Tag>, clock: nat, k: nat,
                          u: ArticleUpdate, articles: seq<Article>, tags: seq<Tag>)
  {
    && k < |oldArticles| == |articles|
    && (forall i | 0 <= i < |articles| && i != k :: articles[i] == oldArticles[i])
    && var before := oldArticles[k];
    && var after := articles[k];
    && ColumnsPatched(before, u, after.(tags := before.tags, updatedAt := before.updatedAt))
    && (u.tagNames.Present? && u.tagNames.value.Some? ==>
          && Resolves(tags, CleanNames(u.tagNames.value.value), after.tags)
          && InsertedFor(oldTags, tags, CleanNames(u.tagNames.value.value)))
    && (!(u.tagNames.Present? && u.tagNames.value.Some?) ==>
          after.tags == before.tags && tags == oldTags)
    && after.updatedAt == (if SameColumns(before, after) then before.updatedAt else clock)
  }

  /** The row `PatchRow` computes, stamped when a column value changed,
      written back in place, is an update in the sense of `Updated`. */
  lemma StampedUpdate(articles: seq<Article>, oldTags: seq<Tag>, clock: nat, k: nat,
                      u: ArticleUpdate, patched: Article, tags: seq<Tag>)
    requires k < |articles|
    requires ColumnsPatched(articles[k], u, patched.(tags := articles[k].tags))
    requires u.tagNames.Present? && u.tagNames.value.Some? ==>
               && Resolves(tags, CleanNames(u.tagNames.value.value), patched.tags)
               && InsertedFor(oldTags, tags, CleanNames(u.tagNames.value.value))
    requires !(u.tagNames.Present? && u.tagNames.value.Some?) ==>
               patched.tags == articles[k].tags && tags == oldTags
    ensures var after := if SameColumns(articles[k], patched) then patched
                         else patched.(updatedAt := clock);
      Updated(articles, oldTags, clock, k, u, articles[k := after], tags)
  {
  }

  /** Tags are replaced, not merged: after an update that sends a
      `tag_names` list, the article shows exactly the cleaned names of that
      list, in order, whatever tags it had before. `Resolves` fixes every id
      from the tag table alone, so no old link can survive in the new list. */
  lemma UpdateReplacesTags(oldArticles: seq<Article>, oldTags: seq<Tag>, clock: nat, k: nat,
                           u: ArticleUpdate, articles: seq<Article>, tags: seq<Tag>,
                           names: seq<string>)
    requires Updated(oldArticles, oldTags, clock, k, u, articles, tags)
    requires TagIdsIncreasing(tags)
    requires u.tagNames == Present(Some(names))
    ensures var shown := TagRows(tags, articles[k].tags);
      |shown| == |CleanNames(names)| && forall j | 0 <= j < |shown| :: shown[j].name == CleanNames(names)[j]
  {
    ResolvedTagNames(tags, CleanNames(names), articles[k].tags);
  }

  // ===== The store =====

  /** The article store behind the handlers. */
  class ArticleStore {
    var articles: seq<Article>
    var tags: seq<Tag>
    var images: seq<Image>
    var nextArticleId: int
    var nextTagId: int
    var nextImageId: int
    /** The next reading of the logical clock. */
    var clock: nat
    const index: SearchIndex

    ghost function State(): Tables
      reads this
    {
      Tables(articles, tags, images, nextArticleId, nextTagId, nextImageId, clock)
    }

    ghost predicate Valid()
      reads this
    {
      TablesValid(State())
    }

    constructor ()
      ensures Valid()
      ensures articles == [] && tags == [] && images == []
      ensures fresh(index) && index.docs == map[]
    {
      articles, tags, images := [], [], [];
      nextArticleId, nextTagId, nextImageId := 1, 1, 1;
      clock := 0;
      index := new SearchIndex();
    }

    /** `db.add(models.Tag(name=name))`: a new tag row with the next id and
        the default color, for a name no row has yet. */
    method InsertTag(name: string) returns (t: Tag)
      requires Valid()
      requires FindTagByName(tags, name).None?
      modifies this`tags, this`nextTagId
      ensures Valid()
      ensures t == NewTag(old(nextTagId), name)
      ensures tags == old(tags) + [t] && nextTagId == old(nextTagId) + 1
    {
      t := NewTag(nextTagId, name);
      InsertTagValid(State(), t);
      tags := tags + [t];
      nextTagId := nextTagId + 1;
    }

    /** `db.add(article)` and the commit: the row is appended with the next
        id, the clock moves on. */
    method InsertRow(a: Article)
      requires Valid()
      requires a.id == nextArticleId && a.createdAt == a.updatedAt == clock
      requires a.viewCount >= 0 && forall t | t in a.tags :: t in TagIds(tags)
      modifies this`articles, this`nextArticleId, this`clock
      ensures Valid()
      ensures articles == old(articles) + [a] && a.id !in ArticleIds(old(articles))
      ensures nextArticleId == old(nextArticleId) + 1 && clock == old(clock) + 1
      ensures ImagesOf(images, a.id) == []
    {
      ghost var st := State();
      InsertRowValid(st, a);
      NoImagesOfNewRow(st, a.id);
      articles := articles + [a];
      nextArticleId := nextArticleId + 1;
      clock := clock + 1;
      assert State() == st.(articles := st.articles + [a], nextArticleId := st.nextArticleId + 1,
                            clock := st.clock + 1);
    }

    /** The commit of a row rewritten in place, with the clock moved to `now`. */
    method ReplaceRow(k: nat, b: Article, now: nat)
      requires Valid() && k < |articles|
      requires b.id == articles[k].id && b.createdAt == articles[k].createdAt
      requires clock <= now && b.createdAt <= b.updatedAt < now
      requires b.viewCount >= 0 && forall t | t in b.tags :: t in TagIds(tags)
      modifies this`articles, this`clock
      ensures Valid()
      ensures articles == old(articles)[k := b] && clock == now
    {
      ghost var st := State();
      ReplaceRowValid(st, k, b, now);
      articles := articles[k := b];
      clock := now;
      assert State() == st.(articles := st.articles[k := b], clock := now);
    }

    /** The delete and its commit: the row and, by the cascade, its images. */
    method RemoveRow(k: nat)
      requires Valid() && k < |articles|
      modifies this`articles, this`images
      ensures Valid()
      ensures articles == old(articles)[..k] + old(articles)[k + 1..]
      ensures images == CascadeDeleteImages(old(images), old(articles)[k].id)
      ensures old(articles)[k].id !in ArticleIds(articles)
    {
      var id := articles[k].id;
      ghost var st := State();
      RemoveRowValid(st, k);
      articles := articles[..k] + articles[k + 1..];
      images := CascadeDeleteImages(images, id);
      assert State() == st.(articles := st.articles[..k] + st.articles[k + 1..],
                            images := CascadeDeleteImages(st.images, id));
    }

    /** `get_or_create_tags`: resolves each cleaned name to the tag row with
        that name, inserting a row with the default color when there is
        none. Rows inserted earlier in the same call are found again. */
    method GetOrCreateTags(names: seq<string>) returns (ids: seq<int>)
      requires Valid()
      modifies this`tags, this`nextTagId
      ensures Valid()
      ensures Resolves(tags, CleanNames(names), ids)
      ensures old(tags) <= tags
      ensures forall k | 0 <= k < |ids| :: FindTagByName(old(tags), CleanNames(names)[k]).Some? ==>
                ids[k] == FindTagByName(old(tags), CleanNames(names)[k]).value.id
      ensures InsertedFor(old(tags), tags, CleanNames(names))
      ensures nextTagId == old(nextTagId) + |tags| - |old(tags)|
    {
      ids := [];
      var i := 0;
      ghost var clean: seq<string> := [];
      while i < |names|
        invariant i <= |names|
        invariant Valid()
        invariant old(tags) <= tags
        invariant clean == CleanNames(names[..i])
        invariant Resolves(tags, clean, ids)
        invariant InsertedFor(old(tags), tags, clean)
        invariant nextTagId == old(nextTagId) + |tags| - |old(tags)|
      {
        var name := Strip(names[i]);
        CleanNamesStep(names, i);
        if name != "" {
          ids := ResolveName(old(tags), clean, ids, name);
          clean := clean + [name];
        }
        i := i + 1;
      }
      assert names[..i] == names;
      forall k | 0 <= k < |ids| && FindTagByName(old(tags), CleanNames(names)[k]).Some?
        ensures ids[k] == FindTagByName(old(tags), CleanNames(names)[k]).value.id
      {
        KnownNameStaysKnown(old(tags), tags, CleanNames(names)[k]);
      }
    }

    /** One step of `get_or_create_tags`: the tag row named `name`, found
        or else inserted, extends the resolution. */
    method ResolveName(ghost origin: seq<Tag>, ghost clean: seq<string>, ids: seq<int>, name: string)
      returns (ids': seq<int>)
      requires Valid() && origin <= tags
      requires Resolves(tags, clean, ids) && InsertedFor(origin, tags, clean)
      modifies this`tags, this`nextTagId
      ensures Valid() && old(tags) <= tags
      ensures Resolves(tags, clean + [name], ids') && InsertedFor(origin, tags, clean + [name])
      ensures nextTagId == old(nextTagId) + |tags| - |old(tags)|
    {
      var found := FindTagByName(tags, name);
      if found.Some? {
        KnownNameKeepsResolves(tags, clean, ids, name);
        InsertedForLonger(origin, tags, clean, name);
        ids' := ids + [found.value.id];
      } else {
        NewNameKeepsResolves(tags, NewTag(nextTagId, name), clean, ids);
        KnownNameStaysKnown(origin, tags, name);
        InsertedForNew(origin, tags, clean, NewTag(nextTagId, name));
        var t := InsertTag(name);
        ids' := ids + [t.id];
      }
    }

    /** `create_article`: inserts every field of the validated body but
        `tag_names` as a new row with the next id, links the resolved tags
        only when `tag_names` is non-empty, commits, and then indexes the
        new row. A body that sends `"author": null` stores the default
        author, as the ORM leaves a `None` out of the INSERT, so the new row
        always serialises as a list entry too. */
    method CreateArticle(c: ArticleCreate, status: EngineStatus) returns (r: ArticleResponse)
      requires Valid()
      modifies this, index
      ensures Valid()
      ensures |articles| == |old(articles)| + 1 && articles[..|old(articles)|] == old(articles)
      ensures var a := articles[|old(articles)|];
        && a == NewArticle(old(nextArticleId), c.title, c.content, Present(c.summary),
             Present(c.author), Present(c.category), Present(Some(c.isPublished)),
             Present(Some(c.featured)), a.tags, old(clock))
        && a.id !in ArticleIds(old(articles))
        && a.author == Some(if c.author.Some? then c.author.value else DefaultAuthor)
        && ToListItem(a, TagRows(tags, a.tags)).Some?
        && (c.tagNames == [] ==> a.tags == [] && tags == old(tags))
        && (c.tagNames != [] ==> Resolves(tags, CleanNames(c.tagNames), a.tags))
        && InsertedFor(old(tags), tags, CleanNames(c.tagNames))
        && index.docs == Upsert(old(index.docs), a, status)
        && Some(r) == ToResponse(a, TagRows(tags, a.tags), [])
      ensures old(tags) <= tags && images == old(images)
      ensures nextArticleId == old(nextArticleId) + 1 && clock == old(clock) + 1
      ensures nextTagId == old(nextTagId) + |tags| - |old(tags)| && nextImageId == old(nextImageId)
    {
      var ids: seq<int> := [];
      if |c.tagNames| > 0 {
        ids := GetOrCreateTags(c.tagNames);
        ResolvedIdsExist(tags, CleanNames(c.tagNames), ids);
      }
      var a := NewArticle(nextArticleId, c.title, c.content, Present(c.summary),
        Present(c.author), Present(c.category), Present(Some(c.isPublished)),
        Present(Some(c.featured)), ids, clock);
      InsertRow(a);
      index.IndexArticle(a.id, a.title, a.content, a.author, a.category, status);
      r := ToResponse(a, TagRows(tags, a.tags), ImagesOf(images, a.id)).value;
    }

    /** `get_article`: 404 for an unknown id; otherwise the view counter
        goes up by one and, since that is a column change, `updated_at` is
        stamped; nothing else changes. */
    method GetArticle(id: int) returns (r: Result<ArticleResponse>)
      requires Valid()
      modifies this`articles, this`clock
      ensures Valid()
      ensures Find(old(articles), id).None? ==>
                r == Err(NotFound) && articles == old(articles) && clock == old(clock)
      ensures Find(old(articles), id).Some? ==>
                var k := Find(old(articles), id).value;
                && articles == old(articles)[k := Viewed(old(articles)[k], old(clock))]
                && clock == old(clock) + 1
                && r == Render(articles[k], tags, images)
    {
      var found := Find(articles, id);
      if found.None? {
        return Err(NotFound);
      }
      var k := found.value;
      var a := articles[k];
      ValidRow(State(), k);
      var b := Viewed(a, clock);
      ReplaceRow(k, b, clock + 1);
      r := Render(b, tags, images);
    }

    /** The new values of a row under an update body: the `setattr` loop,
        then, when the body sent a `tag_names` list, the links replaced by
        the tags the list resolves to. */
    method PatchRow(before: Article, u: ArticleUpdate) returns (after: Article)
      requires Valid() && !NullsRequiredColumn(u)
      requires before in articles
      modifies this`tags, this`nextTagId
      ensures Valid() && old(tags) <= tags
      ensures ColumnsPatched(before, u, after.(tags := before.tags))
      ensures nextTagId == old(nextTagId) + |tags| - |old(tags)|
      ensures u.tagNames.Present? && u.tagNames.value.Some? ==>
                && Resolves(tags, CleanNames(u.tagNames.value.value), after.tags)
                && InsertedFor(old(tags), tags, CleanNames(u.tagNames.value.value))
      ensures !(u.tagNames.Present? && u.tagNames.value.Some?) ==>
                after.tags == before.tags && tags == old(tags)
      ensures RowValid(before, State()) && forall t | t in after.tags :: t in TagIds(tags)
    {
      var k :| 0 <= k < |articles| && articles[k] == before;
      ValidRow(State(), k);
      after := ApplyPayload(before, u);
      if u.tagNames.Present? && u.tagNames.value.Some? {
        var ids := GetOrCreateTags(u.tagNames.value.value);
        ResolvedIdsExist(tags, CleanNames(u.tagNames.value.value), ids);
        after := after.(tags := ids);
      }
      assert TagIds(old(tags)) <= TagIds(tags);
    }

    /** `update_article`: 404 for an unknown id; a body that sends `null`
        for the title or the content fails at the commit (500) and rolls
        everything back; otherwise the row is updated as `UpdateRow` says. */
    method UpdateArticle(id: int, u: ArticleUpdate, status: EngineStatus)
      returns (r: Result<ArticleResponse>)
      requires Valid()
      modifies this`articles, this`tags, this`nextTagId, this`clock, index
      ensures Valid()
      ensures images == old(images) && old(tags) <= tags && |articles| == |old(articles)|
      ensures Find(old(articles), id).None? ==>
                r == Err(NotFound) && unchanged(this) && unchanged(index)
      ensures Find(old(articles), id).Some? && NullsRequiredColumn(u) ==>
                r == Err(IntegrityError) && unchanged(this) && unchanged(index)
      ensures Find(old(articles), id).Some? && !NullsRequiredColumn(u) ==>
                Updated(old(articles), old(tags), old(clock), Find(old(articles), id).value, u,
                        articles, tags)
                && index.docs == Upsert(old(index.docs), articles[Find(old(articles), id).value], status)
                && nextTagId == old(nextTagId) + |tags| - |old(tags)|
                && clock == (if SameColumns(old(articles)[Find(old(articles), id).value],
                                            articles[Find(old(articles), id).value])
                             then old(clock) else old(clock) + 1)
                && r == Render(articles[Find(old(articles), id).value], tags, images)
    {
      var found := Find(articles, id);
      if found.None? {
        return Err(NotFound);
      }
      if NullsRequiredColumn(u) {
        return Err(IntegrityError);
      }
      r := UpdateRow(found.value, u, status);
    }

    /** The successful path of `update_article` on row `k`: the sent column
        fields are set, a sent `tag_names` list replaces the links,
        `updated_at` is stamped when a column value changed, the commit
        happens and the row is indexed again. */
    method UpdateRow(k: nat, u: ArticleUpdate, status: EngineStatus)
      returns (r: Result<ArticleResponse>)
      requires Valid() && k < |articles| && !NullsRequiredColumn(u)
      modifies this`articles, this`tags, this`nextTagId, this`clock, index
      ensures Valid()
      ensures images == old(images) && old(tags) <= tags && |articles| == |old(articles)|
      ensures Updated(old(articles), old(tags), old(clock), k, u, articles, tags)
      ensures nextTagId == old(nextTagId) + |tags| - |old(tags)|
      ensures clock == if SameColumns(old(articles)[k], articles[k]) then old(clock) else old(clock) + 1
      ensures index.docs == Upsert(old(index.docs), articles[k], status)
      ensures r == Render(articles[k], tags, images)
    {
      var before := articles[k];
      var patched := PatchRow(before, u);
      var stamp := !SameColumns(before, patched);
      var after := if stamp then patched.(updatedAt := clock) else patched;
      var now := if stamp then clock + 1 else clock;
      StampedUpdate(articles, old(tags), clock, k, u, patched, tags);
      ReplaceRow(k, after, now);
      index.IndexArticle(after.id, after.title, after.content, after.author, after.category, status);
      r := Render(after, tags, images);
    }

    /** `delete_article`: 404 for an unknown id; otherwise the row goes, its
        images go with it (the cascade), its tag links go with the row while
        the tag rows stay, and then its document is removed from the index. */
    method DeleteArticle(id: int, status: EngineStatus) returns (r: Result<string>)
      requires Valid()
      modifies this`articles, this`images, index
      ensures Valid()
      ensures tags == old(tags)
      ensures Find(old(articles), id).None? ==>
                r == Err(NotFound) && unchanged(this) && unchanged(index)
      ensures Find(old(articles), id).Some? ==>
                var k := Find(old(articles), id).value;
                && r == Ok(DeletedMessage)
                && articles == old(articles)[..k] + old(articles)[k + 1..]
                && id !in ArticleIds(articles)
                && images == CascadeDeleteImages(old(images), id)
                && index.docs == (if status.Available? then old(index.docs) - {id} else old(index.docs))
    {
      var found := Find(articles, id);
      if found.None? {
        return Err(NotFound);
      }
      var k := found.value;
      RemoveRow(k);
      index.DeleteArticleIndex(id, status);
      r := Ok(DeletedMessage);
    }

    /** `reindex_articles`: every stored row is indexed again, in table
        order; the message counts the rows. */
    method ReindexArticles(statuses: seq<EngineStatus>) returns (message: string)
      requires |statuses| == |articles|
      modifies index
      ensures index.docs == IndexAll(old(index.docs), articles, statuses)
      ensures message == "Successfully reindexed " + DecimalString(|articles|) + " articles"
    {
      var count := index.ReindexAll(articles, statuses);
      message := "Successfully reindexed " + DecimalString(|articles|) + " articles";
    }

    /** The row `upload_image` inserts for an uploaded file: 404 for an
        unknown article; otherwise an image row with the next id, the file
        name, the stored path, the alt text and the article as owner. */
    method AttachImage(articleId: int, filename: string, altText: Option<string>)
      returns (r: Result<Image>)
      requires Valid()
      modifies this`images, this`nextImageId, this`clock
      ensures Valid()
      ensures Find(articles, articleId).None? ==> r == Err(NotFound) && unchanged(this)
      ensures Find(articles, articleId).Some? ==>
                && articleId >= 1
                && r.Ok? && images == old(images) + [r.value]
                && nextImageId == old(nextImageId) + 1 && clock == old(clock) + 1
                && r.value == Image(old(nextImageId), filename, UploadPath(articleId, filename),
                     altText, Some(articleId), old(clock))
    {
      var found := Find(articles, articleId);
      if found.None? {
        return Err(NotFound);
      }
      ValidRow(State(), found.value);
      var img := Image(nextImageId, filename, UploadPath(articleId, filename),
        altText, Some(articleId), clock);
      ghost var st := State();
      InsertImageValid(st, img);
      images := images + [img];
      nextImageId := nextImageId + 1;
      clock := clock + 1;
      assert State() == st.(images := st.images + [img], nextImageId := st.nextImageId + 1,
                            clock := st.clock + 1);
      r := Ok(img);
    }
  }

  /** The rows of `after` past the end of `before` are the tags created for
      `clean`: default color, a name from `clean`, a name `before` lacked. */
  ghost predicate InsertedFor(before: seq<Tag>, after: seq<Tag>, clean: seq<string>)
  {
    forall j | |before| <= j < |after| ::
      && after[j].color == DefaultTagColor
      && after[j].name in clean
      && FindTagByName(before, after[j].name).None?
  }

  lemma InsertedForLonger(before: seq<Tag>, after: seq<Tag>, clean: seq<string>, name: string)
    requires InsertedFor(before, after, clean)
    ensures InsertedFor(before, after, clean + [name])
  {
    forall j | |before| <= j < |after| ensures after[j].name in clean + [name] {
    }
  }

  lemma InsertedForNew(before: seq<Tag>, after: seq<Tag>, clean: seq<string>, t: Tag)
    requires InsertedFor(before, after, clean)
    requires before <= after
    requires t.color == DefaultTagColor
    requires FindTagByName(before, t.name).Some? ==> FindTagByName(after, t.name) == FindTagByName(before, t.name)
    requires FindTagByName(after, t.name).None?
    ensures InsertedFor(before, after + [t], clean + [t.name])
  {
    forall j | |before| <= j < |after| + 1
      ensures (after + [t])[j].name in clean + [t.name]
    {
    }
  }

  /** Resolving one more name that the table already holds. */
  lemma KnownNameKeepsResolves(tags: seq<Tag>, clean: seq<string>, ids: seq<int>, name: string)
    requires Resolves(tags, clean, ids)
    requires FindTagByName(tags, name).Some?
    ensures Resolves(tags, clean + [name], ids + [FindTagByName(tags, name).value.id])
  {
  }

  /** A name found in a table is found, as the same row, in any table that
      extends it. */
  lemma KnownNameStaysKnown(before: seq<Tag>, after: seq<Tag>, name: string)
    requires before <= after
    ensures FindTagByName(before, name).Some? ==> FindTagByName(after, name) == FindTagByName(before, name)
  {
    if FindTagByName(before, name).Some? {
      FindTagByNamePrefix(before, after[|before|..], name);
      assert before + after[|before|..] == after;
    }
  }

  /** Inserting a tag with a name not yet in the table keeps every earlier
      resolution valid. */
  lemma NewNameKeepsResolves(tags: seq<Tag>, t: Tag, clean: seq<string>, ids: seq<int>)
    requires Resolves(tags, clean, ids)
    requires FindTagByName(tags, t.name).None?
    ensures Resolves(tags + [t], clean + [t.name], ids + [t.id])
  {
    forall k | 0 <= k < |ids|
      ensures FindTagByName(tags + [t], clean[k]) == FindTagByName(tags, clean[k])
    {
      FindTagByNameAppend(tags, t, clean[k]);
    }
    FindTagByNameAppend(tags, t, t.name);
  }

  /** Every id of a resolution is the id of a tag row. */
  lemma ResolvedIdsExist(tags: seq<Tag>, clean: seq<string>, ids: seq<int>)
    requires Resolves(tags, clean, ids)
    ensures forall id | id in ids :: id in TagIds(tags)
  {
    forall id | id in ids ensures id in TagIds(tags) {
      var k :| 0 <= k < |ids| && ids[k] == id;
      assert FindTagByName(tags, clean[k]).value in tags;
    }
  }

  /** Rewriting one row without touching its id or creation time keeps the
      table's key order and its set of ids. */
  lemma ReplaceKeepsOrder(articles: seq<Article>, k: nat, b: Article)
    requires k < |articles|
    requires b.id == articles[k].id && b.createdAt == articles[k].createdAt
    ensures IdsIncreasing(articles) ==> IdsIncreasing(articles[k := b])
    ensures CreatedIncreasing(articles) ==> CreatedIncreasing(articles[k := b])
    ensures ArticleIds(articles[k := b]) == ArticleIds(articles)
  {
    var s := articles[k := b];
    forall x | x in ArticleIds(s) ensures x in ArticleIds(articles) {
      var a :| a in s && a.id == x;
      var i :| 0 <= i < |s| && s[i] == a;
      assert articles[i].id == x;
    }
    forall x | x in ArticleIds(articles) ensures x in ArticleIds(s) {
      var a :| a in articles && a.id == x;
      var i :| 0 <= i < |articles| && articles[i] == a;
      assert s[i].id == x;
    }
  }

  /** Removing one row keeps the key order, and with unique ids exactly its
      id leaves the set of ids. */
  lemma RemoveKeepsOrder(articles: seq<Article>, k: nat)
    requires k < |articles|
    ensures var s := articles[..k] + articles[k + 1..];
      && (IdsIncreasing(articles) ==> IdsIncreasing(s))
      && (CreatedIncreasing(articles) ==> CreatedIncreasing(s))
  {
    var s := articles[..k] + articles[k + 1..];
    forall i, j | 0 <= i < j < |s|
      ensures s[i] == articles[if i < k then i else i + 1]
      ensures s[j] == articles[if j < k then j else j + 1]
    {
    }
  }

  /** Removing row `k` of a table with unique ids removes exactly its id. */
  lemma RemoveDropsId(articles: seq<Article>, k: nat)
    requires k < |articles|
    requires IdsIncreasing(articles)
    ensures ArticleIds(articles[..k] + articles[k + 1..]) == ArticleIds(articles) - {articles[k].id}
  {
    RemovedIdsWereThere(articles, k);
    OtherIdsRemain(articles, k);
  }

  lemma RemovedIdsWereThere(articles: seq<Article>, k: nat)
    requires k < |articles|
    requires IdsIncreasing(articles)
    ensures ArticleIds(articles[..k] + articles[k + 1..]) <= ArticleIds(articles) - {articles[k].id}
  {
    var s := articles[..k] + articles[k + 1..];
    forall x | x in ArticleIds(s) ensures x in ArticleIds(articles) && x != articles[k].id {
      var a :| a in s && a.id == x;
      var i :| 0 <= i < |s| && s[i] == a;
      var m := if i < k then i else i + 1;
      assert s[i] == articles[m];
      assert articles[m].id != articles[k].id;
      assert articles[m] in articles;
    }
  }

  lemma OtherIdsRemain(articles: seq<Article>, k: nat)
    requires k < |articles|
    ensures ArticleIds(articles) - {articles[k].id} <= ArticleIds(articles[..k] + articles[k + 1..])
  {
    var s := articles[..k] + articles[k + 1..];
    forall x | x in ArticleIds(articles) && x != articles[k].id ensures x in ArticleIds(s) {
      var a :| a in articles && a.id == x;
      var m :| 0 <= m < |articles| && articles[m] == a;
      var i := if m < k then m else m - 1;
      assert s[i] == articles[m];
      assert s[i] in s;
    }
  }
}
