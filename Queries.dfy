/** The read-only article handlers of backend/app/routes.py, as functions of
    the tables: lookup by id, the filtered and paged list, the search
    hydration, the dashboard statistics and the category list. Tables are
    sequences of rows in primary-key order, which is also insertion order. */
module Queries {

  import opened Common
  import opened Strings
  import opened Models
  import opened Search

  // ===== Table invariants =====

  ghost predicate IdsIncreasing(articles: seq<Article>)
  {
    forall i, j | 0 <= i < j < |articles| :: articles[i].id < articles[j].id
  }

  /** `created_at` is stamped at insert from a clock that only moves
      forward, so it grows with the primary key. */
  ghost predicate CreatedIncreasing(articles: seq<Article>)
  {
    forall i, j | 0 <= i < j < |articles| :: articles[i].createdAt < articles[j].createdAt
  }

  function ArticleIds(articles: seq<Article>): set<int>
  {
    set a | a in articles :: a.id
  }

  /** `query(Article).filter(Article.id == id).first()`, as a position. */
  function Find(articles: seq<Article>, id: int): (r: Option<nat>)
    ensures r.Some? ==> r.value < |articles| && articles[r.value].id == id
    ensures r.None? <==> id !in ArticleIds(articles)
  {
    if |articles| == 0 then None
    else if articles[0].id == id then Some(0)
    else
      var rest := Find(articles[1..], id);
      assert ArticleIds(articles) == {articles[0].id} + ArticleIds(articles[1..]) by {
        assert articles == [articles[0]] + articles[1..];
      }
      if rest.None? then None else Some(rest.value + 1)
  }

  /** With unique ids, the row found is the only row with that id. */
  lemma FindUnique(articles: seq<Article>, id: int, k: nat)
    requires IdsIncreasing(articles)
    requires k < |articles| && articles[k].id == id
    ensures Find(articles, id) == Some(k)
  {
    assert articles[k] in articles;
  }

  // ===== Filtering =====

  /** The rows that satisfy `keep`, in table order (a WHERE clause). */
  function Select(articles: seq<Article>, keep: Article -> bool): (r: seq<Article>)
    ensures |r| <= |articles|
    ensures forall i | 0 <= i < |r| :: r[i] in articles && keep(r[i])
    ensures forall i | 0 <= i < |articles| :: keep(articles[i]) ==> articles[i] in r
  {
    if |articles| == 0 then []
    else
      var rest := Select(articles[1..], keep);
      assert forall i | 1 <= i < |articles| :: articles[i] == articles[1..][i - 1];
      assert forall a | a in rest :: a in articles[1..];
      if keep(articles[0]) then [articles[0]] + rest else rest
  }

  /** Selecting keeps table order: ids still increase. */
  lemma {:induction false} SelectKeepsIdOrder(articles: seq<Article>, keep: Article -> bool)
    requires IdsIncreasing(articles)
    ensures IdsIncreasing(Select(articles, keep))
  {
    if |articles| > 0 {
      var tail := articles[1..];
      SelectKeepsIdOrder(tail, keep);
      var rest := Select(tail, keep);
      forall x | x in rest ensures articles[0].id < x.id {
        var m :| 0 <= m < |tail| && tail[m] == x;
        assert articles[m + 1] == x;
      }
      if keep(articles[0]) {
        ConsIdsIncreasing(articles[0], rest);
      }
    }
  }

  /** Selecting keeps table order: creation times still increase. */
  lemma {:induction false} SelectKeepsCreatedOrder(articles: seq<Article>, keep: Article -> bool)
    ensures CreatedIncreasing(articles) ==> CreatedIncreasing(Select(articles, keep))
  {
    if |articles| > 0 && CreatedIncreasing(articles) {
      var tail := articles[1..];
      SelectKeepsCreatedOrder(tail, keep);
      var rest := Select(tail, keep);
      forall x | x in rest ensures articles[0].createdAt < x.createdAt {
        var m :| 0 <= m < |tail| && tail[m] == x;
        assert articles[m + 1] == x;
      }
      if keep(articles[0]) {
        ConsCreatedIncreasing(articles[0], rest);
      }
    }
  }

  lemma ConsIdsIncreasing(a: Article, rest: seq<Article>)
    requires IdsIncreasing(rest)
    requires forall x | x in rest :: a.id < x.id
    ensures IdsIncreasing([a] + rest)
  {
    var r := [a] + rest;
    forall i, j | 0 <= i < j < |r| ensures r[i].id < r[j].id {
      assert r[j] == rest[j - 1];
    }
  }

  lemma ConsCreatedIncreasing(a: Article, rest: seq<Article>)
    requires CreatedIncreasing(rest)
    requires forall x | x in rest :: a.createdAt < x.createdAt
    ensures CreatedIncreasing([a] + rest)
  {
    var r := [a] + rest;
    forall i, j | 0 <= i < j < |r| ensures r[i].createdAt < r[j].createdAt {
      assert r[j] == rest[j - 1];
    }
  }

  /** The selection depends only on which rows pass: two filters that agree
      on every row select the same rows. */
  lemma {:induction false} SelectSameFilter(articles: seq<Article>, keep: Article -> bool,
                                            same: Article -> bool)
    requires forall a :: keep(a) == same(a)
    ensures Select(articles, keep) == Select(articles, same)
  {
    if |articles| > 0 {
      SelectSameFilter(articles[1..], keep, same);
    }
  }

  /** A row is kept or dropped, never both: the two selections add up to the table. */
  lemma {:induction false} SelectSplits(articles: seq<Article>, keep: Article -> bool,
                                        drop: Article -> bool)
    requires forall a :: drop(a) == !keep(a)
    ensures |Select(articles, keep)| + |Select(articles, drop)| == |articles|
  {
    if |articles| > 0 {
      SelectSplits(articles[1..], keep, drop);
    }
  }

  // ===== get_articles =====

  /** The query parameters of `get_articles`. */
  datatype ListQuery = ListQuery(
    skip: nat,
    limit: nat,
    category: Option<string>,
    tag: Option<string>,
    publishedOnly: bool,
    featuredOnly: bool)

  /** Whether the row is linked to the tag named `name` (the join on
      `article_tags` and `tags`). Tag names are unique, so the tag row with
      that name is the only candidate. */
  predicate HasTagNamed(a: Article, tags: seq<Tag>, name: string)
  {
    var t := FindTagByName(tags, name);
    t.Some? && t.value.id in a.tags
  }

  /** The WHERE clause of `get_articles`: every active filter must hold; an
      empty category or tag string is no filter. */
  predicate Matches(a: Article, tags: seq<Tag>, q: ListQuery)
  {
    && (q.publishedOnly ==> a.isPublished == Some(true))
    && (q.featuredOnly ==> a.featured == Some(true))
    && (Truthy(q.category) ==> a.category == q.category)
    && (Truthy(q.tag) ==> HasTagNamed(a, tags, q.tag.value))
  }

  function Reverse(s: seq<Article>): (r: seq<Article>)
    ensures |r| == |s|
    ensures forall i | 0 <= i < |s| :: r[i] == s[|s| - 1 - i]
  {
    if |s| == 0 then [] else Reverse(s[1..]) + [s[0]]
  }

  /** `.offset(skip).limit(limit)`. */
  function Page(s: seq<Article>, skip: nat, limit: nat): (r: seq<Article>)
    ensures |r| <= limit
    ensures skip < |s| ==> |r| == if |s| - skip < limit then |s| - skip else limit
    ensures forall i | 0 <= i < |r| :: skip + i < |s| && r[i] == s[skip + i]
  {
    var rest := if skip < |s| then s[skip..] else [];
    if |rest| <= limit then rest else rest[..limit]
  }

  /** The rows that pass the WHERE clause of `get_articles`, in table order. */
  function MatchingRows(articles: seq<Article>, tags: seq<Tag>, q: ListQuery): (r: seq<Article>)
    ensures forall i | 0 <= i < |r| :: r[i] in articles && Matches(r[i], tags, q)
    ensures forall i | 0 <= i < |articles| :: Matches(articles[i], tags, q) ==> articles[i] in r
    ensures CreatedIncreasing(articles) ==> CreatedIncreasing(r)
  {
    var keep := (a: Article) => Matches(a, tags, q);
    SelectKeepsCreatedOrder(articles, keep);
    Select(articles, keep)
  }

  /** `get_articles`: the matching rows, newest first, after skipping `skip`
      of them and keeping at most `limit`. */
  function ListArticles(articles: seq<Article>, tags: seq<Tag>, q: ListQuery): (r: seq<Article>)
    ensures |r| <= q.limit
    ensures forall i | 0 <= i < |r| :: r[i] in articles && Matches(r[i], tags, q)
  {
    Page(Reverse(MatchingRows(articles, tags, q)), q.skip, q.limit)
  }

  ghost predicate CreatedDecreasing(s: seq<Article>)
  {
    forall i, j | 0 <= i < j < |s| :: s[i].createdAt > s[j].createdAt
  }

  lemma ReverseFlipsOrder(s: seq<Article>)
    requires CreatedIncreasing(s)
    ensures CreatedDecreasing(Reverse(s))
  {
    var r := Reverse(s);
    forall i, j | 0 <= i < j < |r| ensures r[i].createdAt > r[j].createdAt {
      assert r[i] == s[|s| - 1 - i] && r[j] == s[|s| - 1 - j];
    }
  }

  lemma PageKeepsOrder(s: seq<Article>, skip: nat, limit: nat)
    requires CreatedDecreasing(s)
    ensures CreatedDecreasing(Page(s, skip, limit))
  {
    var r := Page(s, skip, limit);
    forall i, j | 0 <= i < j < |r| ensures r[i].createdAt > r[j].createdAt {
      assert r[i] == s[skip + i] && r[j] == s[skip + j];
    }
  }

  /** The list is ordered by `created_at`, newest first. */
  lemma ListNewestFirst(articles: seq<Article>, tags: seq<Tag>, q: ListQuery)
    requires CreatedIncreasing(articles)
    ensures CreatedDecreasing(ListArticles(articles, tags, q))
  {
    var s := MatchingRows(articles, tags, q);
    ReverseFlipsOrder(s);
    PageKeepsOrder(Reverse(s), q.skip, q.limit);
  }

  /** The first page, when it is large enough, holds every matching row. */
  lemma ListFirstPageComplete(articles: seq<Article>, tags: seq<Tag>, q: ListQuery)
    requires q.skip == 0 && q.limit >= |articles|
    ensures var r := ListArticles(articles, tags, q);
      forall i | 0 <= i < |articles| :: Matches(articles[i], tags, q) ==> articles[i] in r
  {
    var s := MatchingRows(articles, tags, q);
    var rev := Reverse(s);
    var r := ListArticles(articles, tags, q);
    assert |rev| <= q.limit;
    assert r == rev;
    forall i | 0 <= i < |articles| && Matches(articles[i], tags, q) ensures articles[i] in r {
      var k :| 0 <= k < |s| && s[k] == articles[i];
      assert rev[|s| - 1 - k] == s[k];
    }
  }

  /** An offset page is a longer first page less its head. */
  lemma PageFromFirst(s: seq<Article>, skip: nat, limit: nat)
    ensures var first := Page(s, 0, skip + limit);
      && (skip <= |first| ==> Page(s, skip, limit) == first[skip..])
      && (skip > |first| ==> Page(s, skip, limit) == [])
  {
    var first := Page(s, 0, skip + limit);
    var page := Page(s, skip, limit);
    if skip <= |first| {
      assert |page| == |first| - skip;
      forall i | 0 <= i < |page| ensures page[i] == first[skip + i] { }
    }
  }

  /** The filters alone decide which rows match; `skip` and `limit` do not. */
  lemma MatchingRowsIgnorePaging(articles: seq<Article>, tags: seq<Tag>, q: ListQuery, skip: nat, limit: nat)
    ensures MatchingRows(articles, tags, q.(skip := skip, limit := limit)) == MatchingRows(articles, tags, q)
  {
    var q0 := q.(skip := skip, limit := limit);
    SelectSameFilter(articles, (a: Article) => Matches(a, tags, q0), (a: Article) => Matches(a, tags, q));
  }

  /** Paging: the page at offset `skip` is the first page of `skip + limit`
      rows less its first `skip` rows, so `skip` passes over the newest
      matching rows, and a page past the end is empty. */
  lemma ListSkipsNewest(articles: seq<Article>, tags: seq<Tag>, q: ListQuery)
    ensures var first := ListArticles(articles, tags, q.(skip := 0, limit := q.skip + q.limit));
      && (q.skip <= |first| ==> ListArticles(articles, tags, q) == first[q.skip..])
      && (q.skip > |first| ==> ListArticles(articles, tags, q) == [])
  {
    var s := Reverse(MatchingRows(articles, tags, q));
    MatchingRowsIgnorePaging(articles, tags, q, 0, q.skip + q.limit);
    assert ListArticles(articles, tags, q.(skip := 0, limit := q.skip + q.limit)) == Page(s, 0, q.skip + q.limit);
    assert ListArticles(articles, tags, q) == Page(s, q.skip, q.limit);
    PageFromFirst(s, q.skip, q.limit);
  }

  // ===== search =====

  /** `search`: the stored rows whose id the index returned, in table order
      (the `IN` query has no ORDER BY); ids that are no longer stored are
      dropped, and a failed or empty query gives no rows. */
  function SearchRows(articles: seq<Article>, response: QueryResponse): (r: seq<Article>)
    ensures forall i | 0 <= i < |r| :: r[i] in articles && r[i].id in SearchArticles(response)
    ensures forall i | 0 <= i < |articles| ::
              articles[i].id in SearchArticles(response) ==> articles[i] in r
    ensures response.QueryFailed? ==> r == []
  {
    var ids := SearchArticles(response);
    if |ids| == 0 then [] else Select(articles, (a: Article) => a.id in ids)
  }

  // ===== get_stats and get_all_categories =====

  ghost predicate NoDuplicates(s: seq<string>)
  {
    forall i, j | 0 <= i < j < |s| :: s[i] != s[j]
  }

  ghost function CategorySet(articles: seq<Article>): set<string>
  {
    set a | a in articles && Truthy(a.category) :: a.category.value
  }

  /** `SELECT DISTINCT category FROM articles`, keeping only truthy values:
      each non-empty category of some row, once (first-occurrence order). */
  function Categories(articles: seq<Article>): (r: seq<string>)
    ensures NoDuplicates(r)
    ensures forall c :: c in r <==> c in CategorySet(articles)
  {
    if |articles| == 0 then []
    else
      var n := |articles| - 1;
      var rest := Categories(articles[..n]);
      var c := articles[n].category;
      assert CategorySet(articles) ==
        CategorySet(articles[..n]) + (if Truthy(c) then {c.value} else {}) by {
        assert articles == articles[..n] + [articles[n]];
      }
      if Truthy(c) && c.value !in rest then rest + [c.value] else rest
  }

  /** `func.sum(Article.view_count)`, with `or 0` for an empty table, where
      SQL's SUM gives NULL. */
  function SumViews(articles: seq<Article>): int
  {
    if |articles| == 0 then 0
    else SumViews(articles[..|articles| - 1]) + articles[|articles| - 1].viewCount
  }

  /** The dashboard counters of `get_stats`. */
  datatype Stats = Stats(
    totalArticles: nat,
    totalViews: int,
    publishedArticles: nat,
    draftArticles: int,
    totalTags: nat,
    categories: seq<string>)

  predicate IsPublished(a: Article)
  {
    a.isPublished == Some(true)
  }

  /** `get_stats`. Drafts are counted as total minus published, so a row
      whose `is_published` is null counts as a draft. */
  function GetStats(articles: seq<Article>, tags: seq<Tag>): (s: Stats)
    ensures s.totalArticles == |articles| && s.totalTags == |tags|
    ensures s.totalViews == SumViews(articles)
    ensures s.publishedArticles == |Select(articles, IsPublished)|
    ensures s.publishedArticles + s.draftArticles == s.totalArticles
    ensures s.categories == Categories(articles)
  {
    var published := |Select(articles, IsPublished)|;
    Stats(|articles|, SumViews(articles), published, |articles| - published, |tags|,
      Categories(articles))
  }

  /** The draft count is the number of rows that are not published. */
  lemma DraftsAreUnpublished(articles: seq<Article>, tags: seq<Tag>)
    ensures GetStats(articles, tags).draftArticles
         == |Select(articles, (a: Article) => !IsPublished(a))|
  {
    SelectSplits(articles, IsPublished, (a: Article) => !IsPublished(a));
  }

  /** Rewriting one row changes the total by the change of its counter, so
      one more view of an article raises the dashboard total by exactly one. */
  lemma {:induction false} SumViewsReplace(articles: seq<Article>, k: nat, b: Article)
    requires k < |articles|
    ensures SumViews(articles[k := b]) == SumViews(articles) - articles[k].viewCount + b.viewCount
  {
    var n := |articles| - 1;
    var s := articles[k := b];
    assert s[..n] == if k == n then articles[..n] else articles[..n][k := b];
    if k < n {
      SumViewsReplace(articles[..n], k, b);
    }
  }

  /** Total views never go below zero while every view counter is non-negative. */
  lemma {:induction false} TotalViewsNonNegative(articles: seq<Article>)
    requires forall i | 0 <= i < |articles| :: articles[i].viewCount >= 0
    ensures SumViews(articles) >= 0
  {
    if |articles| > 0 {
      TotalViewsNonNegative(articles[..|articles| - 1]);
    }
  }
}
