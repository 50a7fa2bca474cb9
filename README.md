# goodbooks-api: the query layer and the loader, in Dafny

goodbooks-api is a read-mostly HTTP API over the goodbooks-10k dataset. The
dataset is five MongoDB collections: `books`, `ratings`, `tags`, `book_tags`
and `to_read`. A one-shot loader fills them from CSV files. This project models
what the route handlers compute from the collections and what the loader writes
into them, and proves those properties:

- `GET /books` filters by text, minimum average and year range, sorts by one of
  four fields, and returns a `{items, page, page_size, total}` window.
- `GET /books/{id}` is a keyed lookup that fails with "not found".
- `GET /books/{id}/ratings/summary` returns the average, the count and a 1..5
  histogram. The handler builds the histogram in a loop.
- `POST /ratings` checks the `x-api-key` gate, then validates the 1..5 score,
  then upserts on `(user_id, book_id)` and reports whether a document was
  created.
- `GET /users/{id}/to-read` inner-joins a user's `to_read` rows with `books`.
  Its `total` counts the raw rows.
- `GET /tags` left-joins tags to `book_tags` and counts each tag's uses. It
  sorts by that count, descending, and pages the result.
- The loader normalises the connection URI and cleans each table: it fills
  missing numbers and coerces the integer columns. It upserts `books` and
  `tags` by key and batch-inserts the other datasets. A failed dataset is
  reported and the next one is still loaded.

Layout, one module per source file plus three shared ones:

- `common.dfy` (`Common`): `Option`, `Result`, the error kinds, the page
  envelope and the skip/limit window.
- `text.dfy` (`Text`): ASCII lower-casing, substring search and suffix tests.
- `ordering.dfy` (`Ordering`): sort keys in the store's order, where numbers
  sort before strings, and a stable sort, proved sorted and a permutation.
- `books.dfy`, `ratings.dfy`, `users.dfy`, `tags.dfy`, `ingest.dfy`: one
  module per source file.

Collections are sequences in natural (insertion) order. The rating store and
the loader change state, so each is a class whose methods are proved against
pure specification functions (`Upsert`, `SummaryOf`, `IngestSpec`,
`RunDatasets`). The handlers that only compute are functions or methods over
the collection contents.

Where the code and its documentation differ, the model follows the code:

- An empty `q` applies no text filter, because the code tests `if q:`.
- A stored score outside 1..5 makes the summary handler fail. The histogram
  loop indexes a dictionary that has only the buckets 1..5. The model reports
  this as a server error and does not make it a precondition.
- `total` of the reading list counts the user's rows before the join.
- The API key is checked before the body is validated, because the key check is
  a route dependency.
- An empty key-field name means "insert", because the code tests `if id_field:`.

## Model

| member | source | states |
|---|---|---|
| `Common.PageWindow` | app/routes/books.py:52-53 | the window has `min(page_size, max(0, n - (page-1)*page_size))` elements, and element k is element `(page-1)*page_size + k` of the ordered result |
| `Common.Skip` | app/routes/books.py:52-53 | `skip(n)`: drop the first `n` results, or all of them when there are fewer; stated through `PageWindow` |
| `Common.Limit` | app/routes/books.py:53 | `limit(n)`: keep at most the first `n` results; stated through `PageWindow` |
| `Common.MaxPageSize` | app/routes/books.py:17 | the `le=100` bound on `page_size`; `ValidPaging` applies it |
| `Common.ValidPaging` | app/routes/books.py:16-17 | the `Query(ge=1)` bound on `page` and `ge=1, le=100` on `page_size` (the same at users.py:10-11 and tags.py:8-9); `ListBooks`, `ListTagsPage` and `ToReadPageShape` reject exactly the paging outside it |
| `Common.DefaultPagingValid` | app/routes/books.py:16-17 | the defaults `page=1`, `page_size=20` (`DefaultPage`, `DefaultPageSize`) lie in the declared domains |
| `Common.WindowCovers` | app/routes/users.py:30-31 | consecutive pages tile the result: element k is on page `k / page_size + 1` at position `k % page_size` |
| `Text.Lower` | app/routes/books.py:23-24 | lower-casing keeps the length and folds each character on its own |
| `Text.ContainsIff` | app/routes/books.py:23-24 | the substring test holds exactly when the pattern occurs at some position |
| `Text.ContainsIgnoringCase` | app/routes/books.py:23-24 | the `$regex` with `$options: "i"`, read as a literal pattern; specified by `ContainsIgnoringCaseIff` and `EmptyPatternMatches` |
| `Text.OccursLowered` | app/routes/books.py:23-24 | the lower-cased pattern occurs at a position of the lower-cased text exactly when each pattern character equals the text character there, ASCII case aside |
| `Text.ContainsIgnoringCaseIff` | app/routes/books.py:21-25 | the case-insensitive match holds exactly when, at some position, each character of the pattern equals the text's character there, ASCII case aside |
| `Text.EmptyPatternMatches` | app/routes/books.py:21 | an empty pattern matches every text, so an empty `q` filtering would be vacuous anyway |
| `Text.EndsWithAppended` | ingest/ingest_data.py:9-10 | appending a suffix makes the string end with it |
| `Ordering.StrLeTotal` | app/routes/books.py:43 | the string order on titles is total |
| `Ordering.StrLeTransitive` | app/routes/books.py:43 | the string order on titles is transitive |
| `Ordering.KeyLeTotal` | app/routes/books.py:39-46 | the sort-key order, with numbers before strings, is total |
| `Ordering.KeyLeTransitive` | app/routes/books.py:39-46 | the sort-key order is transitive |
| `Ordering.KeyLe` | app/routes/books.py:53 | the store's order on sort keys, numbers before strings (also the `$sort` at tags.py:28); specified by `KeyLeTotal` and `KeyLeTransitive` |
| `Ordering.InsertPermutes` | app/routes/books.py:53 | inserting into a sorted run adds exactly that element |
| `Ordering.InsertSorted` | app/routes/books.py:53 | inserting into a sorted run keeps it sorted in the chosen direction |
| `Ordering.SortByCorrect` | app/routes/books.py:46-53 | the sort returns a permutation of its input, sorted by the key in the chosen direction |
| `Ordering.SortBy` | app/routes/books.py:53 | the store's `sort` on one key in one direction (also the `$sort` stage of the tag listing); specified by `SortByCorrect` |
| `Books.ValidQuery` | app/routes/books.py:9-17 | the declared parameter domains: `sort` one of the four tokens, `order` asc or desc, `page >= 1`, `1 <= page_size <= 100`, `0 <= min_avg <= 5`; `ListBooks` rejects exactly outside them |
| `Books.SortKey` | app/routes/books.py:39-46 | `sort_map`: the field each `sort` token orders by; `OrderedIsSortedPermutation` states the order |
| `Books.SortMap` | app/routes/books.py:39-44 | the four `sort` tokens and the field each names; `SortKey` and `OrderedIsSortedPermutation` use it |
| `Books.DefaultQuery` | app/routes/books.py:10-17 | the request with every parameter defaulted: no filters, `sort="avg"`, `order="desc"`, `page=1`, `page_size=20`; `DefaultListing` states what it lists |
| `Books.DefaultMatchesAll` | app/routes/books.py:19-36 | with no parameter given the filter is empty and every stored book matches, in natural order |
| `Books.DefaultListing` | app/routes/books.py:10-53 | the default request is valid and lists every book by `average_rating` descending; its page is the first `min(20, n)` of that order |
| `Books.Find` | app/routes/books.py:49-53 | `find(filter)`: the books the filter document selects, in natural order; specified by `FindIsMatching` and `MatchingMembers` |
| `Books.MatchesFilter` | app/routes/books.py:49-53 | the store's evaluation of the filter document on one book; `FindIsMatching` ties it to the request |
| `Books.Matching` | app/routes/books.py:19-49 | the books that satisfy the request, in natural order; specified by `MatchingCounts` and `MatchingMembers` |
| `Books.Ordered` | app/routes/books.py:46-53 | the matching books in the requested order; specified by `OrderedIsSortedPermutation` and `FindOrdered` |
| `Books.InRange` | app/routes/books.py:30-36 | the `$gte`/`$lte` year range with either bound absent; `BuildFilter` and `FindIsMatching` tie it to `year_from`/`year_to` |
| `Books.Satisfies` | app/routes/books.py:21-36 | the documented listing conditions on `q`, `min_avg`, `year_from` and `year_to`; `MatchingMembers`, `PageSatisfies` and `BuildFilter` use it |
| `Books.UniqueBookIds` | ingest/ingest_data.py:18 | the unique `book_id` index; `GetBookUnique`, `JoinRowSize` and `ToReadTotal` rely on it |
| `Books.BuildFilter` | app/routes/books.py:19-36 | the filter the handler builds step by step selects exactly the books that satisfy the request |
| `Books.FindIsMatching` | app/routes/books.py:19-36 | the filter document the handler builds selects exactly the books the documented conditions admit |
| `Books.MatchingCounts` | app/routes/books.py:49 | each satisfying book is kept as often as it is stored; the rest are dropped |
| `Books.MatchingMembers` | app/routes/books.py:49-53 | a book matches exactly when it is stored and satisfies the request |
| `Books.OrderedIsSortedPermutation` | app/routes/books.py:39-53 | the full listing is a permutation of the matching books, sorted by `sort_map[sort]`, descending for `desc` and ascending for `asc` |
| `Books.PageSatisfies` | app/routes/books.py:21-36 | every listed book has `q` in its title or authors ignoring case, `average_rating >= min_avg`, and its year within the inclusive bounds, each only when given |
| `Books.FindOrdered` | app/routes/books.py:49-53 | the count and the sorted cursor over the built filter are the number and the sorted order of the matching books |
| `Books.CopyCursor` | app/routes/books.py:55-58 | the copy loop collects the cursor's books in cursor order |
| `Books.PageSize` | app/routes/books.py:52-53 | the page holds `min(page_size, max(0, total - (page-1)*page_size))` books |
| `Books.ListBooks` | app/routes/books.py:8-65 | rejects exactly the parameters outside their declared domains; otherwise echoes `page` and `page_size`, `total` is the number of matches, and `items` is the requested window of the sorted matches |
| `Books.GetBook` | app/routes/books.py:67-71 | the result is a stored book with the requested id, and "not found" is returned exactly when no book has that id |
| `Books.GetBookUnique` | app/routes/books.py:69 | under the unique `book_id` index the lookup returns the one stored book with that id |
| `Ratings.ScoresOf` | app/routes/ratings.py:25-35 | the `$match` and `$push` stages: the book's scores in natural order; specified by `ScoresOfMembers`, `ScoresOfCount` and `ScoresSkipOther` |
| `Ratings.Histogram` | app/routes/ratings.py:43-45 | the 1..5 counts of the scores; specified by `HistogramSnoc`, `HistogramTotal` and `SumByScore` |
| `Ratings.SummaryOf` | app/routes/ratings.py:25-52 | the summary the route answers: not found, server error, or mean, count and 1..5 histogram; specified by `SummaryConsistent` and `SummaryFailures` |
| `Ratings.RatingsSummary` | app/routes/ratings.py:22-52 | the handler's histogram loop computes `SummaryOf`: not found, server error, or the mean, count and 1..5 histogram |
| `Ratings.HistogramSnoc` | app/routes/ratings.py:43-45 | one more score in 1..5 adds one to its own bucket and leaves the others |
| `Ratings.HistogramTotal` | app/routes/ratings.py:43-45 | the five bucket counts sum to the number of scores |
| `Ratings.SumByScore` | app/routes/ratings.py:29-45 | the sum of the scores is the histogram-weighted sum |
| `Ratings.ScoresOfCount` | app/routes/ratings.py:26-32 | one score is pushed per rating of the book |
| `Ratings.SummaryConsistent` | app/routes/ratings.py:27-51 | the histogram has exactly the keys 1..5, its counts sum to `ratings_count`, `ratings_count` is the number of the book's ratings (more than zero), and the average is the weighted sum over the count |
| `Ratings.SummaryFailures` | app/routes/ratings.py:37-45 | "not found" exactly when no rating has the book id; a server error exactly when a rating of the book has a score outside 1..5 |
| `Ratings.RatingsForZero` | app/routes/ratings.py:38-39 | no rating counts for the book exactly when none has its id |
| `Ratings.ScoresOfMembers` | app/routes/ratings.py:26-32 | a score is pushed exactly when some rating of the book carries it |
| `Ratings.SummaryIgnoresOtherBooks` | app/routes/ratings.py:26 | a rating of another book, anywhere in the collection, does not change the summary |
| `Ratings.ScoresSkipOther` | app/routes/ratings.py:26 | a rating of another book contributes no score |
| `Ratings.Upsert` | app/routes/ratings.py:60-69 | `update_one` with `upsert=True` on the pair: overwrite the first document holding it or append one, and say whether one was created; specified by `UpsertCreatedIff`, `UpsertStores` and `UpsertIdempotent` |
| `Ratings.Authorized` | app/routes/ratings.py:13-19 | `require_api_key`: the request passes exactly when its `x-api-key` header is present and equals the configured key; used by `RatingStore.CreateRating`, whose contract states the outcome |
| `Ratings.ValidRatingIn` | app/routes/ratings.py:10 | the `Field(ge=1, le=5)` bound on `rating`; `CreateRating` rejects exactly the bodies outside it |
| `Ratings.UniquePairs` | ingest/ingest_data.py:22 | the unique `(user_id, book_id)` index of `ratings`; `UpsertStores` proves the upsert keeps it |
| `Ratings.RatingStore.Valid` | app/routes/ratings.py:54-69 | the store invariant: the pairs are unique; the constructor establishes it and `CreateRating` keeps it |
| `Ratings.FindPair` | app/routes/ratings.py:60-61 | the first document holding the `(user_id, book_id)` pair, or none exactly when no document holds it |
| `Ratings.UpsertCreatedIff` | app/routes/ratings.py:60-69 | "created" exactly when no document held the pair before |
| `Ratings.UpsertStores` | app/routes/ratings.py:60-64 | the pair index stays unique, the collection grows by one exactly when created, exactly one document holds the pair with the new score, and other documents are unchanged in place |
| `Ratings.UpsertIdempotent` | app/routes/ratings.py:60-64 | repeating the same rating changes nothing and reports "updated" |
| `Ratings.RatingStore.constructor` | app/routes/ratings.py:71-75 | the store starts with the given key and contents, unique on the pair |
| `Ratings.RatingStore.CreateRating` | app/routes/ratings.py:54-69 | a missing or wrong key gives "unauthorized" and a score outside 1..5 gives a validation error, both leaving the store unchanged; otherwise the store is the upsert's result and the reply says whether it created a document |
| `Ratings.RatingStore.Summary` | app/routes/ratings.py:22-52 | the summary route answers `SummaryOf` the current contents |
| `Ratings.RepeatedRatingExample` | app/routes/ratings.py:54-69 | rating a book 3, 3 and then 5 leaves one document, and its summary is one rating of 5 |
| `Tags.Usages` | app/routes/tags.py:12-27 | one row per tag, in order, with the tag's id, its name and the number of `book_tags` rows naming it |
| `Tags.PopularitySortedPermutation` | app/routes/tags.py:12-28 | the popularity order is a permutation of the tags' rows, one per tag, with non-increasing `book_count` |
| `Tags.EveryTagListed` | app/routes/tags.py:14-25 | every tag is listed with its count, including 0 for an unused tag (left join) |
| `Tags.ListedRowsAreTags` | app/routes/tags.py:14-25 | every listed row is a stored tag with its own association count |
| `Tags.UsageCountAppend` | app/routes/tags.py:25 | a new association row raises its tag's count by one and leaves the others |
| `Tags.ListTags` | app/routes/tags.py:7-46 | the handler: validation error for invalid paging, otherwise the window of the popularity order, with `total` the number of tags; its contract is stated by `ListTagsPage` |
| `Tags.UsageCount` | app/routes/tags.py:13-25 | the `$size` of a tag's `$lookup` into book_tags; specified by `UsageCountAppend` |
| `Tags.Popularity` | app/routes/tags.py:28 | the `$sort` by `book_count` descending; specified by `PopularitySortedPermutation`, `EveryTagListed` and `ListedRowsAreTags` |
| `Tags.ListTagsPage` | app/routes/tags.py:7-46 | rejects exactly invalid paging; `total` is the number of tags; the items are the requested window of the popularity order |
| `Tags.DefaultTagPage` | app/routes/tags.py:8-40 | with the default paging the route answers the 20 most used tags (all when fewer), with `total` the number of tags |
| `Users.RowsOfMembers` | app/routes/users.py:15 | a row is selected exactly when it is stored and belongs to the user |
| `Users.JoinRowMembers` | app/routes/users.py:16-29 | a row yields exactly the projections of the stored books with its `book_id` |
| `Users.JoinedMembers` | app/routes/users.py:16-22 | the joined sequence holds exactly the items of its rows |
| `Users.JoinedIff` | app/routes/users.py:14-29 | an item is listed exactly when it projects one of the user's rows with a stored book of that `book_id` |
| `Users.JoinRowSize` | app/routes/users.py:16-22 | under the unique `book_id` index a row yields one item when its book is stored and none otherwise |
| `Users.JoinedSize` | app/routes/users.py:14-40 | joined items plus rows whose book is missing number the user's rows |
| `Users.GetUserToRead` | app/routes/users.py:7-48 | the handler: validation error for invalid paging, otherwise the window of the user's rows joined to `books`, with `total` the user's row count; its contract is stated by `ToReadPageShape` and `ToReadTotal` |
| `Users.RowsOf` | app/routes/users.py:15 | the `$match` on `user_id` (also the `count_documents` filter); specified by `RowsOfMembers` |
| `Users.Project` | app/routes/users.py:23-29 | the `$project` of a row and its book; `JoinedIff` states the projected fields |
| `Users.JoinRow` | app/routes/users.py:16-22 | `$lookup` then `$unwind` for one row; specified by `JoinRowMembers` and `JoinRowSize` |
| `Users.Joined` | app/routes/users.py:16-22 | `$lookup` then `$unwind` over all the user's rows; specified by `JoinedMembers`, `JoinedIff` and `JoinedSize` |
| `Users.ToReadPageShape` | app/routes/users.py:7-48 | rejects exactly invalid paging; echoes `user_id`, `page` and `page_size`; the items are exactly the skip/limit window of the join, with `min(page_size, max(0, joined - (page-1)*page_size))` items; `total` is the number of the user's rows |
| `Users.ToReadTotal` | app/routes/users.py:14-40 | under the unique `book_id` index, `total` is the number of joined items plus the rows whose book is missing, so never below the number of joined items |
| `Users.DefaultToReadPage` | app/routes/users.py:10-40 | with the default paging the route answers the first 20 joined items (all when fewer), with `total` the user's row count |
| `Ingest.NormalizeUri` | ingest/ingest_data.py:8-10 | the URI ends with `/db_name`; a URI already ending so is unchanged, and any other gets `/db_name` appended |
| `Ingest.NormalizeUriIdempotent` | ingest/ingest_data.py:9-10 | normalising twice is normalising once |
| `Ingest.Truncate` | ingest/ingest_data.py:52 | `astype(int)` truncates toward zero |
| `Ingest.ParseInt` | ingest/ingest_data.py:52 | text is read as an integer only when it is a decimal literal with an optional leading sign, and a negative result comes from a leading `-` |
| `Ingest.ParseIntSigned` | ingest/ingest_data.py:52 | reading back the decimal notation of any integer, or a `+`-signed natural number, gives that number |
| `Ingest.CoerceInt` | ingest/ingest_data.py:52 | `to_numeric(errors='coerce').fillna(0).astype(int)` on one cell; its cases are stated by `CleanedCell` |
| `Ingest.CleanedCell` | ingest/ingest_data.py:38-52 | a present integer column becomes an integer: an integer stays, a float is truncated toward zero, text is its integer literal's value or 0, a missing cell is 0; a missing cell in the four filled columns takes its default; other cells are untouched |
| `Ingest.FillDefaults` | ingest/ingest_data.py:38-43 | the fill values of the four filled columns; `CleanedCell` states them |
| `Ingest.IntColumns` | ingest/ingest_data.py:46-48 | the eleven integer columns; `CleanedCell` and `ConvertDone` state their conversion |
| `Ingest.FillMissing` | ingest/ingest_data.py:38-43 | `df.fillna` with the defaults; specified by `FillStart` |
| `Ingest.Filled` | ingest/ingest_data.py:38-43 | `fillna` on one cell: a missing cell of a filled column takes its default; `CleanedCell` states it |
| `Ingest.ConvertColumn` | ingest/ingest_data.py:52 | one integer column converted; specified by `ConvertStep` |
| `Ingest.NonNumericTextIsZero` | ingest/ingest_data.py:52 | text with a character that is neither a digit nor a leading sign becomes 0 in an integer column |
| `Ingest.DecimalTextIsRead` | ingest/ingest_data.py:52 | text holding the decimal notation of an integer becomes that integer in an integer column |
| `Ingest.CellStep` | ingest/ingest_data.py:50-52 | converting the next integer column of a cell gives the cell after one more conversion; a cell of any other column is unchanged by the step |
| `Ingest.ConvertStep` | ingest/ingest_data.py:50-52 | one pass of the column loop converts exactly the next integer column, when the table has it |
| `Ingest.ConvertDone` | ingest/ingest_data.py:50-54 | after the last integer column every cell is as `CleanedCell` makes it |
| `Ingest.Cleaned` | ingest/ingest_data.py:35-54 | `clean_dataframe` as a value: every cell as `CleanedCell` makes it; `CleanDataFrame` is proved to compute it |
| `Ingest.CleanDataFrame` | ingest/ingest_data.py:35-54 | the fill and the column-by-column loop keep the columns, the rows and each row's fields, and leave every cell as `CleanedCell` makes it |
| `Ingest.UpsertDoc` | ingest/ingest_data.py:71-72 | one `update_one` with `$set` and `upsert=True`; specified by `UpsertDocStep` and `UpsertDocUnique` |
| `Ingest.UpsertRecords` | ingest/ingest_data.py:69-72 | the record loop as a value, stopping at the first failing record; specified by `UpsertAll` and the `Upsert…` lemmas below |
| `Ingest.InsertMany` | ingest/ingest_data.py:73-74 | `insert_many(ordered=False)`: a record is skipped when its key is taken, and the batch then reports a duplicate key; specified by `InsertManySkips`, `InsertManyFresh` and `InsertWithoutIndexAppends` |
| `Ingest.IngestSpec` | ingest/ingest_data.py:56-79 | `ingest_collection` as a value; `DataIngestor.IngestCollection` is proved to compute it |
| `Ingest.Fetch` | ingest/ingest_data.py:61 | `pd.read_csv(csv_url)`; specified by `FetchOutcome` |
| `Ingest.FetchOutcome` | ingest/ingest_data.py:60-79 | a failed download is reported as such and writes nothing; a successful one hands its own table on |
| `Ingest.RunDatasets` | ingest/ingest_data.py:81-107 | the datasets loaded in order; `DataIngestor.IngestAllData` is proved to compute it and `EveryDatasetReported` states its reports |
| `Ingest.DatasetUrl` | ingest/ingest_data.py:83-92 | a dataset's URL; `DatasetUrlShape` and `DatasetUrlInjective` state its shape and that each dataset has its own |
| `Ingest.BaseUrl` | ingest/ingest_data.py:83 | the repository base of every URL; `DatasetUrlShape` states it |
| `Ingest.Datasets` | ingest/ingest_data.py:86-92 | the five datasets in load order; `EveryDatasetReported` states the order |
| `Ingest.IdField` | ingest/ingest_data.py:94-100 | `id_fields.get(name)`; stated by `IdFieldsMatchIndexes` |
| `Ingest.FindByField` | ingest/ingest_data.py:71-72 | the first document whose key field equals the record's, or none exactly when there is no such document |
| `Ingest.UpsertAll` | ingest/ingest_data.py:69-72 | the record loop computes `UpsertRecords` and stops at the first failing record |
| `Ingest.DataIngestor.constructor` | ingest/ingest_data.py:8-12 | the ingestor connects to the normalised URI |
| `Ingest.DataIngestor.CreateIndexes` | ingest/ingest_data.py:14-33 | the unique indexes exist afterwards exactly when the data satisfies them, and the data is unchanged |
| `Ingest.DataIngestor.IngestCollection` | ingest/ingest_data.py:56-79 | the store and the reported outcome are `IngestSpec`'s, and the unique indexes still hold |
| `Ingest.DataIngestor.IngestAllData` | ingest/ingest_data.py:81-107 | indexes are created first, and when that fails nothing is loaded; otherwise the five datasets are loaded in order as `RunDatasets` says, and a report is returned |
| `Ingest.UpsertErrorSticks` | ingest/ingest_data.py:60-79 | once a record fails, the later records are not written |
| `Ingest.UpsertKeepsUnique` | ingest/ingest_data.py:69-72 | keyed upserts never break the unique index they run against |
| `Ingest.IndexesHoldUpdate` | ingest/ingest_data.py:14-33 | writing a collection that meets its own index keeps every index holding |
| `Ingest.UniqueKey` | ingest/ingest_data.py:18-33 | the unique indexes by collection; `IdFieldsMatchIndexes`, `IndexesHoldUpdate` and `InsertManySkips` use it |
| `Ingest.KeyOf` | ingest/ingest_data.py:18-33 | the index key of a document, an absent field indexing as null; `KeyOfSingle`, `InsertManyKeys` and `UpsertOnePerKey` use it |
| `Ingest.UniqueOn` | ingest/ingest_data.py:14-33 | a unique index holds: no two documents share the key; `UpsertKeepsUnique`, `InsertManyKeepsUnique` and `UpsertDocUnique` prove the writes keep it |
| `Ingest.IndexesHold` | ingest/ingest_data.py:14-33 | every unique index of `create_indexes` holds on its collection; `IndexesHoldUpdate` and `IngestAllData` keep it |
| `Ingest.DataIngestor.Valid` | ingest/ingest_data.py:14-79 | the loader invariant: once the indexes exist they hold; every method of the loader keeps it |
| `Ingest.UpsertDocStep` | ingest/ingest_data.py:71-72 | one upsert merges the record into the first document with its key, or appends it; that document then has the key, and no other document changes |
| `Ingest.UpsertDocUnique` | ingest/ingest_data.py:71-72 | under a unique key one upsert keeps the key unique, and the updated document is the only one with that key before and after |
| `Ingest.UpsertKeepsKey` | ingest/ingest_data.py:71-72 | a document keeps its place and its key through one upsert |
| `Ingest.UpsertOtherKey` | ingest/ingest_data.py:71-72 | a document holding a key other than the record's after one upsert was there before, unchanged |
| `Ingest.UpsertOwnKey` | ingest/ingest_data.py:71-72 | under a unique key, the document holding the record's key after one upsert carries every field of the record |
| `Ingest.UpsertRecordsStep` | ingest/ingest_data.py:69-72 | the record loop is the upsert of the first records followed by one more upsert |
| `Ingest.UpsertByKey` | ingest/ingest_data.py:69-72 | upserting records that all carry the key field never fails; the key stays unique, and documents keep their places and keys |
| `Ingest.UpsertKeyStored` | ingest/ingest_data.py:69-72 | after the loop some document holds the key of any given record |
| `Ingest.UpsertOnePerKey` | ingest/ingest_data.py:69-72 | afterwards exactly one document holds each record's key: the one the key lookup finds |
| `Ingest.UpsertLastWins` | ingest/ingest_data.py:69-72 | for the last record with a given key and any field it sets, the document holding that key carries the record's value of the field |
| `Ingest.UpsertKeepsFields` | ingest/ingest_data.py:72 | for any existing document and any field of it that no record for its key sets, the document keeps its place and that field's value |
| `Ingest.KeyedDatasetLoads` | ingest/ingest_data.py:94-100 | books and tags, with the key field in every row, load completely and stay one document per key under their unique index |
| `Ingest.UnkeyedDatasetAppends` | ingest/ingest_data.py:73-74 | a non-empty `book_tags` table is appended record by record, in order |
| `Ingest.InsertManyFresh` | ingest/ingest_data.py:73-74 | under a unique index, a batch whose keys are new and distinct goes in whole, in order, and succeeds |
| `Ingest.InsertManyStep` | ingest/ingest_data.py:73-74 | under a unique index one more record is skipped with a duplicate key exactly when its key is already stored, and appended otherwise |
| `Ingest.InsertManyPrefix` | ingest/ingest_data.py:73-74 | under a unique index the documents keep their places and everything inserted is one of the records |
| `Ingest.InsertManyKeys` | ingest/ingest_data.py:73-74 | under a unique index the stored keys are those of the documents and of all the records |
| `Ingest.InsertManyError` | ingest/ingest_data.py:73-74 | under a unique index the only error is a duplicate key, raised exactly when some record meets a key held by a document or an earlier record |
| `Ingest.InsertManySkips` | ingest/ingest_data.py:73-74 | under a unique index the documents keep their places, every inserted document is a record, the stored keys are those of the documents and all the records, and the batch fails (only with a duplicate key) exactly when some record meets a key held by a document or an earlier record |
| `Ingest.PairDatasetLoads` | ingest/ingest_data.py:60-77 | under the unique `(user_id, book_id)` index of ratings and to-read, a non-empty table stores every pair key, and is reported loaded exactly when no row repeats a stored or earlier pair, otherwise reported as a duplicate key |
| `Ingest.InsertManyKeepsUnique` | ingest/ingest_data.py:73-74 | a batch insert never breaks the unique index it runs against |
| `Ingest.InsertWithoutIndexAppends` | ingest/ingest_data.py:73-74 | without a unique index every record is appended, in order, and the batch succeeds |
| `Ingest.IngestTouchesOnlyItsCollection` | ingest/ingest_data.py:68-79 | loading one dataset leaves every other collection as it was |
| `Ingest.EveryDatasetReported` | ingest/ingest_data.py:106-107 | every dataset is attempted and reported in order with its own outcome, whatever happened to the ones before it |
| `Ingest.DatasetUrlShape` | ingest/ingest_data.py:83-92 | the URL starts with the base, ends with `name + ".csv"`, and holds `samples/` between them exactly for the sample data |
| `Ingest.DatasetUrlInjective` | ingest/ingest_data.py:83-92 | different datasets, or full and sample data, have different URLs, so each load reads its own download |
| `Ingest.FileUrlInjective` | ingest/ingest_data.py:83-92 | below any base, a file name that is non-empty and does not start like `samples/` determines both the name and the folder |
| `Ingest.IdFieldsMatchIndexes` | ingest/ingest_data.py:94-100 | `book_id` for books, `tag_id` for tags and none for the others; each key field is its dataset's unique index |

## Left out

- The MongoDB client, `ping`, the health check, the application lifespan,
  router wiring, CORS and request logging: these are I/O and framework
  plumbing. The collections are parameters or class fields.
- The API key wiring: the rating routes read a key that only an uncalled setter
  sets. The model takes the configured key as a parameter of `RatingStore`.
- The duplicate `RatingIn` and `require_api_key` in app/main.py: the routes do
  not use them.
- Books.ListBooks: `q` is a regular expression in the store. The model reads it
  as a literal substring, and its case folding is ASCII only.
- Ratings.RatingsSummary: the average is exact. The handler's `round(..., 2)`
  is display rounding of a float.
- Ingest.Truncate: exact truncation of an unbounded real. Float precision,
  overflow and infinities in `astype(int)` are not modelled.
- Ingest.CoerceInt: the model reads a text cell as an integer only when it is
  a decimal literal with an optional sign. `to_numeric` also accepts decimals,
  exponents and surrounding spaces; those text cells become 0 in the model.
- 64-bit skip offsets: a `page` so large that `(page-1)*page_size` does not
  fit in 64 bits makes the store's `skip`/`$skip` raise, which the routes
  report as a server error. Integers are unbounded here, so the model returns
  an empty page instead.
- Parameter defaults: the framework fills in an omitted parameter before the
  handler runs, and every handler here takes its parameters as given. The route
  defaults are the constants `DefaultQuery`, `DefaultPage` and `DefaultPageSize`,
  with lemmas about the listings they give. The loader's `use_samples=True`
  default has no counterpart: `IngestAllData` takes the flag explicitly.
- `_id` stringification of the results: it has no behavioural content.
- Tie order in sorts: the source does not specify it. The model uses a stable
  sort and claims only sortedness and permutation.
- The CSV download: `downloads` maps each URL to the table read from it, and a
  URL it lacks is a failed download.
- The text index and the rating index are not modelled, because they affect
  only speed. Only the unique indexes are.
- Ingest.DataIngestor.CreateIndexes: building the indexes is modelled as one
  atomic step that either succeeds for all collections or changes nothing.
- A collection the store does not hold is treated as an empty one.
- The store's equality between integer and float values (5 matches 5.0 in a
  filter) is not modelled: values of different kinds are different.
- Unordered `insert_many` against a unique index is modelled as "skip each
  record whose key is already taken, insert the rest, and report failure if
  any was skipped".
- The `__main__` argument parsing of the loader and tests/test_books.py: they
  contain no query or loading logic.
