# itsour-blog backend core, modelled in Dafny

This project models the article API of the itsour-blog backend:

- the relational rows and their defaults (`backend/app/models.py`);
- the request and response schemas (`backend/app/schemas.py`);
- the article routes (`backend/app/routes.py`): create, list, read, update, delete, search, image upload, dashboard statistics, categories and reindexing;
- the search-engine helpers (`backend/app/search.py`);
- the AI settings and summary endpoints (`backend/app/ai_routes.py`), as that file defines them; `backend/app/main.py` does not mount their routers.

The database is a value of three tables held by the class `Routes.ArticleStore`:

- articles, tags and images are sequences in insertion (primary-key) order;
- `Tables`/`Constraints` state the invariants the handlers keep (`Valid()`);
- time is a logical clock that every write reads and advances.

The search engine is the class `Search.SearchIndex`, a map from article id to the indexed document. The settings table is the class `AiSettings.SettingsStore`, a sequence of key/value rows.

Modules:

- `Common`: Option, the sent/omitted field of a request body, the handler result and the HTTP status of each error.
- `Strings`: Python's `str.strip`, slicing and `or` on strings.
- `Models`: rows, column defaults, tag lookups and the image cascade.
- `Schemas`: `ArticleCreate`, `ArticleUpdate` and the response projections.
- `Search`: documents, indexing, deletion and reindexing.
- `Queries`: filtering, ordering, paging, statistics and categories.
- `Routes`: tag resolution, the update payload, response rendering, the table invariants and the handlers.
- `AiSettings`: settings read with defaults, upsert, API-key masking, the settings endpoints and `generate_summary`.

Behaviour the model follows, as the code does it:

- `search` loads the hits with `id IN (...)` and no `ORDER BY`, so the database decides the order of the rows, and nothing keeps the engine's relevance order. The model returns them in table order, one choice among the orders the database may use. A failed or empty search gives an empty list.
- `create_article` passes every schema field to the ORM constructor, `null` included. The ORM leaves a `None` out of the INSERT, so a body that sends `"author": null` stores the column default "Itsour".
- `get_article` increments `view_count`, a column update, so `updated_at`'s `onupdate` stamps the row as well.
- `update_article` stamps `updated_at` only when some column value actually changes. An update that only replaces tags, or sets every column to its current value, issues no UPDATE on the article row and keeps the old `updated_at`.
- An update body that sends `null` for `title` or `content` passes validation (every `ArticleUpdate` field is optional), then fails the NOT NULL constraint at commit. The result is a 500 and nothing changes.
- An update may store `null` in `is_published`, `featured` or `author`, which are nullable columns. Serialising such a row then fails response validation, and the model returns `ResponseInvalid` (500) for it.
- `tag_names` in an update replaces the article's tags when it is a list (an empty list clears them). When it is left out or `null`, the tags stay.
- Reindexing writes a document for every stored row and never removes documents of rows that are gone.
- In `get_settings` and `update_settings`, an API key of 12 characters or fewer is shown as `***`, and a longer one as its first 8 characters, `...`, and its last 4.

## Model

| member | source | states |
|---|---|---|
| `Strings.StripTrimsWhitespace` | backend/app/routes.py:21-23 | `strip` removes exactly the leading and trailing whitespace; the result is empty exactly when the name is all whitespace |
| `Strings.StripIdempotent` | backend/app/routes.py:21 | stripping a stripped name changes nothing |
| `Strings.Strip` | backend/app/routes.py:21 | `str.strip()` gives a string no longer than the name; which slice it keeps is stated by `Strings.StripTrimsWhitespace` |
| `Strings.OrElse` | backend/app/search.py:12-13 | `x or fallback`: a non-empty value is kept, `None` or `""` gives the fallback |
| `Strings.Head` | backend/app/ai_routes.py:108 | `s[:n]` is a prefix of `s` of length `min(n, len(s))` |
| `Strings.Tail` | backend/app/ai_routes.py:62 | `s[-n:]` is the suffix of `s` of length `min(n, len(s))` |
| `Strings.DecimalString` | backend/app/routes.py:196 | `str(n)` is non-empty, all digits, without a leading zero, and its digits denote `n` |
| `Models.Supplied` | backend/app/schemas.py:40-57 | a body field takes its sent value, `null` included, or the schema default when it was left out |
| `Models.Inserted` | backend/app/models.py:19-23 | the ORM INSERT stores a given non-null value; a `None` given to the constructor is left out like an omitted one, so the column default applies |
| `Models.NewArticle` | backend/app/models.py:15-25 | a new article row carries the given values; `author` "Itsour", `is_published` true and `featured` false when they are left out or given as `None`, so none of the three is ever null; `view_count` 0, and both timestamps set to the insertion time |
| `Models.NewTag` | backend/app/models.py:46-48 | a new tag gets the given name and the default color `#667eea` |
| `Models.FindTagByName` | backend/app/routes.py:24 | the lookup by name finds a row with that name, and finds nothing exactly when no row has it |
| `Models.FindTagByNameIsTheRow` | backend/app/models.py:47 | under the UNIQUE constraint on `tags.name`, looking up a row's name gives that row |
| `Models.FindTagByNamePrefix` | backend/app/routes.py:24-27 | a name already found is still found, as the same row, after more tags are added |
| `Models.FindTagByNameAppend` | backend/app/routes.py:24-27 | after one tag is added, a lookup finds the earlier match if there was one, otherwise the new tag exactly when it has the name |
| `Models.TagById` | backend/app/models.py:29 | loading a linked tag by id finds a row with that id, and finds nothing exactly when no row has it |
| `Models.TagByIdIsTheRow` | backend/app/models.py:46 | with a primary key, looking up a tag's id gives that tag |
| `Models.CascadeDeleteImages` | backend/app/models.py:28 | deleting an article removes exactly its images and keeps every other image |
| `Models.CascadeDeleteImagesAppend` | backend/app/models.py:28 | the cascade works image by image, so the images it keeps stay in their order |
| `Schemas.ParseCreate` | backend/app/schemas.py:37-47 | a create body is refused (422) exactly when title or content is missing or null, or a non-nullable field is null; otherwise the sent values with the schema defaults |
| `Schemas.SentField` | backend/app/schemas.py:49-56 | a column field of an update body yields one assignment, to that column, exactly when the body sent the field (`null` included), and none otherwise |
| `Schemas.SentColumns` | backend/app/routes.py:97 | the `exclude_unset` dump holds at most seven assignments, and none for an empty body |
| `Schemas.ToResponse` | backend/app/schemas.py:59-68 | a row serialises as `ArticleResponse` exactly when `is_published` and `featured` are not null, and then with every column, the images and the tags |
| `Schemas.ToListItem` | backend/app/schemas.py:70-83 | a row serialises as `ArticleListResponse` exactly when `author` and `featured` are not null, and then with those fields and the tags |
| `Search.ToDocument` | backend/app/search.py:9-14 | the document keeps title and content; the author falls back to "Itsour" and the category to "" when missing or empty |
| `Search.DocOf` | backend/app/search.py:55-61 | a row's document carries its title and content |
| `Search.SearchArticles` | backend/app/search.py:37-42 | a failed search gives no ids; a successful one gives the hit ids in hit order |
| `Search.Upsert` | backend/app/search.py:15-18 | indexing writes the row's document under its id, and a failure leaves the index as it was |
| `Search.IndexAll` | backend/app/search.py:51-63 | reindexing keeps every indexed id and adds only ids of the given rows |
| `Search.ReindexReconciles` | backend/app/search.py:54-61 | when every write succeeds and ids are distinct, each row's id maps to that row's document afterwards |
| `Search.ReindexReconcilesAt` | backend/app/search.py:54-61 | the same, for one row |
| `Search.ReindexKeepsStrangers` | backend/app/search.py:51-63 | a document whose id is not a row's keeps its content through a reindex, so stale documents stay |
| `Search.SearchIndex.constructor` | backend/app/search.py:5 | the index starts empty |
| `Search.SearchIndex.IndexArticle` | backend/app/search.py:7-18 | indexing sets the id's document, and does nothing when the engine fails |
| `Search.SearchIndex.DeleteArticleIndex` | backend/app/search.py:44-49 | deleting removes the id's document, and does nothing when the engine fails or the id is absent |
| `Search.SearchIndex.ReindexAll` | backend/app/search.py:51-63 | the loop indexes every row in order and returns the row count |
| `Queries.Find` | backend/app/routes.py:79 | the lookup by id finds the position of a row with that id, and finds nothing exactly when no row has it |
| `Queries.FindUnique` | backend/app/models.py:15 | with increasing primary keys, the lookup finds the one row with the id |
| `Queries.Select` | backend/app/routes.py:62-71 | a filter keeps exactly the rows that pass, and no others |
| `Queries.SelectKeepsIdOrder` | backend/app/routes.py:62-71 | filtering keeps rows in primary-key order |
| `Queries.SelectKeepsCreatedOrder` | backend/app/routes.py:62-71 | filtering keeps rows in creation order |
| `Queries.SelectSplits` | backend/app/routes.py:173-176 | the rows that pass and the rows that fail a filter together number all rows |
| `Queries.Reverse` | backend/app/routes.py:73 | reversing keeps the length and puts row `i` at position `n-1-i` |
| `Queries.Page` | backend/app/routes.py:73 | `OFFSET skip LIMIT limit` gives at most `limit` rows, the rows from `skip` on, and a full page while rows remain |
| `Queries.MatchingRows` | backend/app/routes.py:62-71 | the published, featured, category and tag filters keep exactly the matching rows, in creation order |
| `Queries.ListArticles` | backend/app/routes.py:51-74 | the list holds at most `limit` rows, each a stored row that matches every filter |
| `Queries.ReverseFlipsOrder` | backend/app/routes.py:73 | reversing rows in creation order puts the newest first |
| `Queries.PageKeepsOrder` | backend/app/routes.py:73 | a page of a newest-first list is newest-first |
| `Queries.ListNewestFirst` | backend/app/routes.py:73 | the list is ordered by `created_at` descending |
| `Queries.ListFirstPageComplete` | backend/app/routes.py:62-73 | a first page at least as long as the table holds every matching row |
| `Queries.ListSkipsNewest` | backend/app/routes.py:73 | the page at offset `skip` is the first page of `skip + limit` rows less its first `skip` rows; past the end it is empty |
| `Queries.SearchRows` | backend/app/routes.py:131-135 | the search loads exactly the stored rows whose id was a hit, and nothing when the search failed |
| `Queries.Categories` | backend/app/routes.py:204-208 | the category list has no duplicates and holds exactly the non-empty categories of the rows |
| `Queries.GetStats` | backend/app/routes.py:170-189 | the totals count rows and tags, the total views are the sum of the view counters, the published count counts published rows, and published plus drafts is the total |
| `Queries.SumViewsReplace` | backend/app/routes.py:174 | rewriting one row changes the total views by exactly the change of that row's counter |
| `Queries.DraftsAreUnpublished` | backend/app/routes.py:175-176 | the draft count is the number of rows not published |
| `Queries.TotalViewsNonNegative` | backend/app/routes.py:174 | `sum(view_count) or 0`: with non-negative view counters, the total is not negative |
| `Routes.CleanNamesStripped` | backend/app/routes.py:21-23 | every name `get_or_create_tags` resolves is non-empty and has no surrounding whitespace |
| `Routes.CleanNames` | backend/app/routes.py:20-23 | cleaning yields at most one name per input name; `Routes.CleanNamesStripped`, `Routes.CleanNamesAppend` and `Routes.CleanNamesEmpty` state which |
| `Routes.CleanNamesAppend` | backend/app/routes.py:20-28 | names are cleaned one by one: cleaning a concatenation concatenates the cleaned parts |
| `Routes.CleanNamesEmpty` | backend/app/routes.py:20-23 | no name survives cleaning exactly when every name is blank |
| `Routes.TagRows` | backend/app/models.py:29 | an article's linked tags are table rows; when every id exists, they are the rows of those ids, in link order |
| `Routes.ResolvedTagNames` | backend/app/routes.py:17-29 | the tags an article shows after resolution carry exactly the cleaned names, in order |
| `Routes.ApplyAllAppend` | backend/app/routes.py:98-99 | applying assignments in two runs is applying them in one |
| `Routes.Assign` | backend/app/routes.py:99 | one `setattr` never touches the id, the view counter, the timestamps or the tag links |
| `Routes.ApplyAll` | backend/app/routes.py:98-99 | the `setattr` loop never touches the id, the view counter, the timestamps or the tag links |
| `Routes.PatchStep` | backend/app/routes.py:98-99 | one `setattr` changes exactly its own column, to the sent value |
| `Routes.PayloadPatchesColumns` | backend/app/routes.py:97-99 | every sent column takes the sent value (null included) and every other column keeps its value |
| `Routes.ApplyPayload` | backend/app/routes.py:97-99 | the `setattr` loop leaves the row patched as above |
| `Routes.ApplyEach` | backend/app/routes.py:98-99 | the loop leaves the row equal to `ApplyAll` of the assignments in order |
| `Routes.ImagesOf` | backend/app/models.py:28 | an article's images are exactly the images that belong to it |
| `Routes.Render` | backend/app/routes.py:76 | the handler's row serialises as `ArticleResponse`, or fails with 500 when a non-nullable field holds null |
| `Routes.RenderList` | backend/app/routes.py:51 | a list serialises when every row has an author and a featured flag, row by row; otherwise it fails with 500 |
| `Routes.GetArticles` | backend/app/routes.py:51-74 | the answer is the page of `ListArticles` serialised entry by entry; it is Ok exactly when every row on the page has an author and a featured flag, and then holds at most `limit` entries, each for a stored row matching the filters |
| `Routes.SearchRoute` | backend/app/routes.py:128-136 | an empty query is a 422; otherwise the answer is every stored row that was a hit, serialised; a failed search gives an empty list, and each entry is a stored row that was a hit |
| `Routes.SearchFindsEveryHit` | backend/app/routes.py:131-136 | when every stored row serialises, the search succeeds and each stored row that was a hit appears in the answer |
| `Routes.Viewed` | backend/app/routes.py:83-85 | a view adds one to `view_count`, stamps `updated_at` and changes nothing else |
| `Routes.ViewRaisesTotalViews` | backend/app/routes.py:174 | one view raises the dashboard's total views by exactly one |
| `Routes.UploadPath` | backend/app/routes.py:152 | the stored path is `uploads/`, the decimal digits of the article id, `_`, then the file name |
| `Routes.UploadPathNamesArticle` | backend/app/routes.py:152 | the same file name uploaded for two different articles is stored under two different paths |
| `Routes.InsertTagValid` | backend/app/routes.py:26-27 | adding a tag with the next id and an unused name keeps the table constraints |
| `Routes.InsertRowValid` | backend/app/routes.py:41-42 | inserting a row with the next id, stamped now, keeps the constraints, and the id was unused |
| `Routes.NoImagesOfNewRow` | backend/app/routes.py:41-43 | a newly inserted article has no images |
| `Routes.ReplaceRowValid` | backend/app/routes.py:98-105 | rewriting a row with the same id and creation time keeps the constraints |
| `Routes.RemoveRowValid` | backend/app/routes.py:121-122 | deleting a row and its images keeps the constraints, and the id is gone |
| `Routes.InsertImageValid` | backend/app/routes.py:157-164 | adding an image of an existing article keeps the constraints |
| `Routes.StampedUpdate` | backend/app/routes.py:97-105 | the patched row, stamped only when a column changed, is the update the handler promises |
| `Routes.UpdateReplacesTags` | backend/app/routes.py:102-103 | after an update that sends `tag_names`, the article shows exactly the cleaned names, whatever tags it had before |
| `Routes.ArticleStore.constructor` | backend/app/models.py:7-50 | the database starts with empty tables and an empty index |
| `Routes.ArticleStore.InsertTag` | backend/app/routes.py:26-27 | a missing tag is appended with the next id and the default color |
| `Routes.ArticleStore.InsertRow` | backend/app/routes.py:41-43 | an article row is appended with an unused id, and it has no images |
| `Routes.ArticleStore.ReplaceRow` | backend/app/routes.py:84-85 | a row is rewritten in place and the clock moves on |
| `Routes.ArticleStore.RemoveRow` | backend/app/routes.py:121-122 | the row is removed, its images go with it and its id is gone |
| `Routes.ArticleStore.GetOrCreateTags` | backend/app/routes.py:17-29 | each cleaned name resolves to the existing tag of that name or to a tag created for it, and tags that existed keep their ids |
| `Routes.ArticleStore.ResolveName` | backend/app/routes.py:21-28 | one loop step resolves one more name and keeps that invariant |
| `Routes.ArticleStore.CreateArticle` | backend/app/routes.py:32-49 | a new row with the next id, the request's values and the defaults is appended; a `null` author is stored as "Itsour", so the row also serialises as a list entry; its tags resolve the cleaned names, and the only tag rows added are default-colored rows for cleaned names that had no row; the article id counter and the clock move on by one, the image counter stays, the tag counter moves by the rows added; it is indexed, and the response shows it with no images |
| `Routes.ArticleStore.GetArticle` | backend/app/routes.py:76-87 | an unknown id is a 404 and changes nothing; otherwise the row is counted as viewed and returned |
| `Routes.ArticleStore.PatchRow` | backend/app/routes.py:96-103 | the sent columns are set and a sent tag list replaces the links; the only tag rows added are default-colored rows for names of that list that had none, and the tag counter moves by the rows added |
| `Routes.ArticleStore.UpdateArticle` | backend/app/routes.py:89-112 | an unknown id is a 404; a null title or content is a 500 with nothing changed; otherwise only that row changes as patched (new tag rows only for unknown names of a sent list), the clock moves on only on a column change, and it is indexed again |
| `Routes.ArticleStore.UpdateRow` | backend/app/routes.py:96-112 | the successful update: row patched, new tag rows only for unknown names of a sent list, `updated_at` stamped and the clock moved on only on a column change, reindexed, returned |
| `Routes.ArticleStore.DeleteArticle` | backend/app/routes.py:114-125 | an unknown id is a 404; otherwise the row and its images go, the tags stay, and the document is removed |
| `Routes.ArticleStore.ReindexArticles` | backend/app/routes.py:191-196 | every row is indexed again and the message counts the rows |
| `Routes.ArticleStore.AttachImage` | backend/app/routes.py:139-167 | an unknown article is a 404; otherwise one image row with the next id, the upload path and the article link is appended, and the image counter and the clock move on by one |
| `Routes.InsertedForLonger` | backend/app/routes.py:24-28 | the invariant that every new tag was created for one of the names survives more names |
| `Routes.InsertedForNew` | backend/app/routes.py:25-27 | a tag created for a missing name keeps that invariant |
| `Routes.KnownNameKeepsResolves` | backend/app/routes.py:24-28 | a name with an existing tag resolves to that tag's id |
| `Routes.KnownNameStaysKnown` | backend/app/routes.py:24 | adding tags never changes what an earlier lookup found |
| `Routes.NewNameKeepsResolves` | backend/app/routes.py:25-28 | a name without a tag resolves to the tag created for it |
| `Routes.ResolvedIdsExist` | backend/app/routes.py:28-29 | every resolved id is the id of a tag row |
| `Routes.ReplaceKeepsOrder` | backend/app/routes.py:98-99 | rewriting a row keeps the id and creation order and the set of ids |
| `Routes.RemoveKeepsOrder` | backend/app/routes.py:121 | deleting a row keeps the id and creation order |
| `Routes.RemoveDropsId` | backend/app/routes.py:121-122 | after a delete, the ids are the old ids less the deleted one |
| `AiSettings.Default` | backend/app/ai_routes.py:16-28 | the defaults: model, base URL and prompt are non-empty; the API key and every unknown key default to "" |
| `AiSettings.FindSetting` | backend/app/ai_routes.py:25 | the lookup finds the first row with the key, and finds nothing exactly when no row has it |
| `AiSettings.GetSetting` | backend/app/ai_routes.py:24-28 | a missing key reads as its default; with unique keys, a stored key reads as its value |
| `AiSettings.FindSettingIsFirst` | backend/app/ai_routes.py:25 | `.first()` returns the first row with the key |
| `AiSettings.SetExistingKey` | backend/app/ai_routes.py:31-34 | overwriting a stored key makes it read the new value and leaves every other key as it was |
| `AiSettings.SetNewKey` | backend/app/ai_routes.py:35-37 | adding a row for a new key makes it read the value and leaves every other key as it was |
| `AiSettings.MaskApiKey` | backend/app/ai_routes.py:61-62 | "" stays "", a key of 1 to 12 characters shows as `***`, a longer one as its first 8 characters, `...` and its last 4 |
| `AiSettings.MaskRevealsOnlyEnds` | backend/app/ai_routes.py:62 | two long keys that share their first 8 and last 4 characters mask alike |
| `AiSettings.DumpField` | backend/app/ai_routes.py:70 | `exclude_none` dumps a field at most once, under its own key |
| `AiSettings.Dumped` | backend/app/ai_routes.py:70 | the dump has at most four pairs, all with setting keys |
| `AiSettings.WrittenAppend` | backend/app/ai_routes.py:71-73 | for writes in sequence, the later write of a key wins |
| `AiSettings.WrittenField` | backend/app/ai_routes.py:70-73 | a field's dump writes only its own key, and only when it was sent |
| `AiSettings.DumpedWritesSent` | backend/app/ai_routes.py:70-73 | the dump writes exactly the fields that were sent non-null |
| `AiSettings.SettingsStore.constructor` | backend/app/ai_routes.py:24-28 | the settings table starts empty |
| `AiSettings.SettingsStore.SetSetting` | backend/app/ai_routes.py:31-38 | upsert: the key reads the value, other keys are unchanged, and an existing row is overwritten rather than duplicated |
| `AiSettings.SettingsStore.GetSettings` | backend/app/ai_routes.py:55-65 | the result has exactly the four keys, each read with its default and the API key masked |
| `AiSettings.SettingsStore.ShowSetting` | backend/app/ai_routes.py:59-64 | one step of the loop gives the value `Shown` states: read with its default, the API key masked when non-empty |
| `AiSettings.Shown` | backend/app/ai_routes.py:58-62 | a settings response shows every key but the API key as read; it is empty exactly when the value read is empty; the API key shows at most 15 characters |
| `AiSettings.SettingsStore.WriteAll` | backend/app/ai_routes.py:71-73 | the write loop leaves every key reading the last written value among the setting keys, or its old value |
| `AiSettings.SettingsStore.UpdateSettings` | backend/app/ai_routes.py:68-83 | each non-null sent field is stored, every other setting keeps its value, and the masked settings are returned |
| `AiSettings.OverlayStep` | backend/app/ai_routes.py:71-73 | one more write changes only its own key |
| `AiSettings.Kept` | backend/app/ai_routes.py:71-72 | the guard never writes more pairs than were sent |
| `AiSettings.KeptGuard` | backend/app/ai_routes.py:71-72 | a pair is written exactly when it was sent and its key is one of `SETTING_KEYS` |
| `AiSettings.KeptAppend` | backend/app/ai_routes.py:71-73 | the guard works pair by pair, so the written pairs keep their order |
| `AiSettings.KeptDumped` | backend/app/ai_routes.py:70-73 | the guard drops nothing from the dump |
| `AiSettings.KeptAll` | backend/app/ai_routes.py:72 | the guard keeps pairs whose keys are all setting keys |
| `AiSettings.UserMessage` | backend/app/ai_routes.py:108-109 | the user message is the labelled title, a blank line and the content label, then the content cut to 3000 characters; short content is kept whole |
| `AiSettings.Render` | backend/app/ai_routes.py:109 | the f-string renders a title as itself and a missing title as `None` |
| `AiSettings.Fallback` | backend/app/ai_routes.py:103-105 | an empty setting falls back to its default |
| `AiSettings.PrepareSummary` | backend/app/ai_routes.py:97-128 | no stored API key is a 400; otherwise the request carries the bearer key, the model, URL and prompt with fallbacks, the user message and 200 max tokens |
| `AiSettings.SummaryReply` | backend/app/ai_routes.py:129-141 | an answer gives the stripped summary; an error status gives 502 with the service's message or a fixed one; any other failure gives 502 with a labelled reason |
| `AiSettings.GenerateSummary` | backend/app/ai_routes.py:97-141 | with a stored key, the result is the handling of the service's reply |
| `AiSettings.SummaryStatuses` | backend/app/ai_routes.py:99-141 | 400 exactly when no key is stored, 502 exactly when a key is stored and the service did not answer, and a summary has no surrounding whitespace |
| `AiSettings.FreshStoreUsesDefaults` | backend/app/ai_routes.py:103-105 | with only an API key stored, the request uses the default model, prompt and URL |

## Left out

- File storage in `upload_image` (`routes.py:152-154`): the copy of the uploaded bytes is not modelled. Only the path and the image row are.
- The outbound HTTP call of `generate_summary` (`ai_routes.py:111-130`): what the service answers is a parameter (`ChatOutcome`). JSON parsing of the reply is folded into that outcome. The 30-second timeout and `temperature` are not modelled.
- Elasticsearch: the query DSL, fuzziness, field boosts and highlighting (`search.py:22-36`) are not modelled. A search's outcome is a parameter (`QueryResponse`). Each write's success or failure is a parameter (`EngineStatus`), and a failure only prints, so the model leaves the index unchanged. Connection setup (`search.py:4-5`) is not modelled.
- `get_all_tags` (`routes.py:198-202`) returns the tag table as it is. The model has nothing to add beyond `Schemas`' tag rows.
- Authentication (`auth.py`, `auth_routes.py`), `image_utils.py`, `main.py`, the database session and `database.py` are not part of this model.
- The `SiteSetting` model used by `ai_routes.py` is not defined in `models.py`. The settings table is modelled as a sequence of key/value rows.
- `main.py` mounts only `router` (`routes.py`) and `auth_router` (`main.py:5-6,24-25`). The two routers of `ai_routes.py` are never mounted there, so the settings and summary endpoints are modelled as `ai_routes.py` defines them, not as reachable in the application as shown.
- Real timestamps: `datetime.utcnow` becomes a logical clock that each write reads and advances.
- Column widths (`String(255)` and the others) and database-specific truncation are not modelled.
- Negative `skip` or `limit` on the list endpoint are not modelled: both are natural numbers here.
- Rows linked to the same tag twice in `article_tags`: the model keeps the link list the handler builds. A name repeated in `tag_names` therefore gives a repeated link, and no unique constraint on the association table is modelled.
- `Routes.ArticleStore.GetOrCreateTags`: assumes the session autoflushes, as SQLAlchemy's sessions do by default (`database.py` is not part of this model). A tag created earlier in the loop is then found again, and a name repeated in `tag_names` becomes one tag. With autoflush off the second lookup would miss it, two rows with the same name would be added, and the commit would fail the UNIQUE constraint on `tags.name` with a 500. That path is not modelled.
- `Queries.ListArticles`: its own contract states the bound and the filters. The order (newest first), the completeness of the first page and the offset are stated separately, by `Queries.ListNewestFirst`, `Queries.ListFirstPageComplete` and `Queries.ListSkipsNewest`.
- `Search.IndexAll`: its own contract bounds the set of ids. What each row's document becomes is stated by `Search.ReindexReconciles`, when every write succeeds.
- `Routes.UploadPath`: `pathlib` normalisation of the joined path is not modelled. The last segment always starts with the article id's digits, so it never replaces the `uploads` directory (a file name `/x` gives `uploads/5_/x`), but `pathlib` collapses `//` and `.` segments (`a/./b` becomes `a/b`) and drops a trailing `/`, while the model concatenates the strings as they are.
- `Strings.Strip`: its own contract only bounds the length. What it keeps is stated by `Strings.StripTrimsWhitespace`, because that fact attached to every use of `Strip` makes the tag-name proofs too costly.
- `Routes.CleanNames`: its own contract only bounds the length. What it keeps is stated by `Routes.CleanNamesStripped`, `Routes.CleanNamesAppend` and `Routes.CleanNamesEmpty`.
- `AiSettings.Kept`: its own contract only bounds the length. Which pairs it keeps, and their order, are stated by `AiSettings.KeptGuard` and `AiSettings.KeptAppend`.
