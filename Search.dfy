/** The search-index adapter (backend/app/search.py). The engine's "articles"
    index is a map from article id to a four-field document. Every call to
    the engine may fail; the adapter swallows failures on writes (the index
    is then left as it was) and answers a failed query with no ids. The
    query language and its ranking are the engine's business: a query is
    represented by the engine's answer, an ordered sequence of ids. */
module Search {

  import opened Common
  import opened Strings
  import opened Models

  /** The document written for an article. */
  datatype Doc = Doc(title: string, content: string, author: string, category: string)

  /** The outcome of one call to the engine. */
  datatype EngineStatus = Available | Failed

  /** The engine's answer to a query: the hit ids in hit order, or an error. */
  datatype QueryResponse = Hits(ids: seq<int>) | QueryFailed

  /** The document `index_article` builds: title and content verbatim, a
      falsy author replaced by "Itsour" and a falsy category by "". */
  function ToDocument(title: string, content: string, author: Option<string>,
                      category: Option<string>): (d: Doc)
    ensures d.title == title && d.content == content
    ensures d.author == (if Truthy(author) then author.value else DefaultAuthor)
    ensures d.category == (if Truthy(category) then category.value else "")
    ensures d.author != ""
  {
    Doc(title, content, OrElse(author, DefaultAuthor), OrElse(category, ""))
  }

  /** The document for a stored row, as the handlers and `reindex_all` pass it. */
  function DocOf(a: Article): (d: Doc)
    ensures d.title == a.title && d.content == a.content
  {
    ToDocument(a.title, a.content, a.author, a.category)
  }

  /** `search_articles`: the hit ids in hit order, or `[]` on any failure. */
  function SearchArticles(response: QueryResponse): (ids: seq<int>)
    ensures response.QueryFailed? ==> ids == []
    ensures response.Hits? ==> ids == response.ids
  {
    match response
    case Hits(ids) => ids
    case QueryFailed => []
  }

  /** The index after one `index_article` call: the document replaces any
      earlier one for the id, unless the engine failed. */
  function Upsert(docs: map<int, Doc>, a: Article, status: EngineStatus): (r: map<int, Doc>)
    ensures status.Available? ==> r == docs[a.id := DocOf(a)]
    ensures status.Failed? ==> r == docs
  {
    if status.Available? then docs[a.id := DocOf(a)] else docs
  }

  function Ids(articles: seq<Article>): set<int>
  {
    set a | a in articles :: a.id
  }

  /** The index after indexing `articles` one by one, the k-th call meeting
      engine outcome `statuses[k]`. */
  function IndexAll(docs: map<int, Doc>, articles: seq<Article>, statuses: seq<EngineStatus>)
    : (r: map<int, Doc>)
    requires |statuses| == |articles|
    ensures docs.Keys <= r.Keys <= docs.Keys + Ids(articles)
  {
    if |articles| == 0 then docs
    else
      var n := |articles| - 1;
      assert Ids(articles) == Ids(articles[..n]) + {articles[n].id} by {
        assert articles == articles[..n] + [articles[n]];
      }
      Upsert(IndexAll(docs, articles[..n], statuses[..n]), articles[n], statuses[n])
  }

  ghost predicate DistinctIds(articles: seq<Article>)
  {
    forall i, j | 0 <= i < j < |articles| :: articles[i].id != articles[j].id
  }

  ghost predicate AllAvailable(statuses: seq<EngineStatus>)
  {
    forall k | 0 <= k < |statuses| :: statuses[k].Available?
  }

  /** Reconciliation: when the engine is up for every call, reindexing a
      table with distinct ids leaves, for every row, exactly that row's
      current document under its id, whatever the index held before. */
  lemma ReindexReconciles(docs: map<int, Doc>, articles: seq<Article>,
                          statuses: seq<EngineStatus>)
    requires |statuses| == |articles|
    requires AllAvailable(statuses)
    requires DistinctIds(articles)
    ensures var r := IndexAll(docs, articles, statuses);
      forall k | 0 <= k < |articles| :: articles[k].id in r && r[articles[k].id] == DocOf(articles[k])
  {
    forall k | 0 <= k < |articles|
      ensures var r := IndexAll(docs, articles, statuses);
        articles[k].id in r && r[articles[k].id] == DocOf(articles[k])
    {
      ReindexReconcilesAt(docs, articles, statuses, k);
    }
  }

  /** The row at position `k`: no later row has its id, and its own write
      went through. */
  lemma {:induction false} ReindexReconcilesAt(docs: map<int, Doc>, articles: seq<Article>,
                                               statuses: seq<EngineStatus>, k: nat)
    requires |statuses| == |articles| && k < |articles|
    requires AllAvailable(statuses)
    requires DistinctIds(articles)
    ensures var r := IndexAll(docs, articles, statuses);
      articles[k].id in r && r[articles[k].id] == DocOf(articles[k])
  {
    var n := |articles| - 1;
    IndexAllLast(docs, articles, statuses);
    assert statuses[n].Available?;
    if k < n {
      var prefix, sts := articles[..n], statuses[..n];
      assert AllAvailable(sts);
      assert DistinctIds(prefix);
      ReindexReconcilesAt(docs, prefix, sts, k);
      assert prefix[k] == articles[k];
      assert articles[k].id != articles[n].id;
    }
  }

  lemma IndexAllLast(docs: map<int, Doc>, articles: seq<Article>, statuses: seq<EngineStatus>)
    requires |statuses| == |articles| > 0
    ensures var n := |articles| - 1;
      IndexAll(docs, articles, statuses) ==
        Upsert(IndexAll(docs, articles[..n], statuses[..n]), articles[n], statuses[n])
  {
  }

  /** Reindexing never removes a document: documents of ids that are not in
      the table (rows deleted while the engine was down) stay in place. */
  lemma {:induction false} ReindexKeepsStrangers(docs: map<int, Doc>, articles: seq<Article>,
                                                 statuses: seq<EngineStatus>, id: int)
    requires |statuses| == |articles|
    requires id in docs && id !in Ids(articles)
    ensures var r := IndexAll(docs, articles, statuses); id in r && r[id] == docs[id]
  {
    if |articles| > 0 {
      var n := |articles| - 1;
      assert articles == articles[..n] + [articles[n]];
      assert id !in Ids(articles[..n]);
      ReindexKeepsStrangers(docs, articles[..n], statuses[..n], id);
    }
  }

  /** The engine's "articles" index, updated in place. */
  class SearchIndex {
    var docs: map<int, Doc>

    constructor ()
      ensures docs == map[]
    {
      docs := map[];
    }

    /** `index_article`: writes the document under the article id; an
        engine failure is swallowed and the index is left as it was. */
    method IndexArticle(id: int, title: string, content: string,
                        author: Option<string>, category: Option<string>,
                        status: EngineStatus)
      modifies this
      ensures status.Available? ==> docs == old(docs)[id := ToDocument(title, content, author, category)]
      ensures status.Failed? ==> docs == old(docs)
    {
      if status.Available? {
        docs := docs[id := ToDocument(title, content, author, category)];
      }
    }

    /** `delete_article_index`: removes the document of the id; deleting an
        id that has no document, like any engine failure, is swallowed. */
    method DeleteArticleIndex(id: int, status: EngineStatus)
      modifies this
      ensures status.Available? ==> docs == old(docs) - {id}
      ensures status.Failed? ==> docs == old(docs)
      ensures id !in old(docs) ==> docs == old(docs)
    {
      if status.Available? && id in docs {
        docs := docs - {id};
      }
    }

    /** `reindex_all`: indexes each article in order and counts them; the
        count is the number of articles whatever the engine did. */
    method ReindexAll(articles: seq<Article>, statuses: seq<EngineStatus>) returns (count: nat)
      requires |statuses| == |articles|
      modifies this
      ensures count == |articles|
      ensures docs == IndexAll(old(docs), articles, statuses)
    {
      count := 0;
      while count < |articles|
        invariant count <= |articles|
        invariant docs == IndexAll(old(docs), articles[..count], statuses[..count])
      {
        var a := articles[count];
        IndexArticle(a.id, a.title, a.content, a.author, a.category, statuses[count]);
        assert articles[..count + 1][..count] == articles[..count];
        assert statuses[..count + 1][..count] == statuses[..count];
        count := count + 1;
      }
      assert articles[..count] == articles && statuses[..count] == statuses;
    }
  }
}
