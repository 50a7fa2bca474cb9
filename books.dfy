/** The catalog routes `GET /books` (filtered, sorted, paged listing) and
    `GET /books/{book_id}` (keyed lookup) over the `books` collection. */
module Books {
  import opened Common
  import opened Text
  import opened Ordering

  /** A document of the `books` collection, reduced to the fields the routes read. */
  datatype Book = Book(
    bookId: int,
    title: string,
    authors: string,
    averageRating: real,
    ratingsCount: int,
    originalPublicationYear: int,
    imageUrl: string)

  /** The unique index on `book_id`. */
  ghost predicate UniqueBookIds(books: seq<Book>) {
    forall i, j :: 0 <= i < j < |books| ==> books[i].bookId != books[j].bookId
  }

  /** The query parameters of `GET /books`, as received. */
  datatype BookQuery = BookQuery(
    q: Option<string>,
    minAvg: Option<real>,
    yearFrom: Option<int>,
    yearTo: Option<int>,
    sort: string,
    order: string,
    page: int,
    pageSize: int)

  datatype SortField = AverageRating | RatingsCount | PublicationYear | Title

  /** `sort_map`: the four accepted `sort` tokens and the field each selects. */
  const SortMap: map<string, SortField> := map[
    "avg" := AverageRating,
    "ratings_count" := RatingsCount,
    "year" := PublicationYear,
    "title" := Title]

  /** The declared domains of the parameters; anything else is rejected before the store is queried. */
  predicate ValidQuery(req: BookQuery) {
    && req.sort in SortMap
    && (req.order == "asc" || req.order == "desc")
    && ValidPaging(req.page, req.pageSize)
    && (req.minAvg.Some? ==> 0.0 <= req.minAvg.value <= 5.0)
  }

  /** The request the framework builds when every parameter is omitted: no
      filters, `sort="avg"`, `order="desc"`, `page=1`, `page_size=20`. */
  const DefaultQuery: BookQuery :=
    BookQuery(None, None, None, None, "avg", "desc", DefaultPage, DefaultPageSize)

  function SortKey(f: SortField): Book -> Key {
    match f
    case AverageRating => (b: Book) => Num(b.averageRating)
    case RatingsCount => (b: Book) => Num(b.ratingsCount as real)
    case PublicationYear => (b: Book) => Num(b.originalPublicationYear as real)
    case Title => (b: Book) => Str(b.title)
  }

  // ---------------------------------------------------------------------------
  // The filter document and the store's evaluation of it

  /** `{"$gte": year_from, "$lte": year_to}` with either bound absent. */
  datatype YearRange = YearRange(gte: Option<int>, lte: Option<int>)

  /** `filter_query`: the `$or` text condition, the `average_rating` bound and
      the `original_publication_year` range, each present only when inserted. */
  datatype Filter = Filter(textOr: Option<string>, avgGte: Option<real>, year: Option<YearRange>)

  predicate InRange(y: int, r: YearRange) {
    (r.gte.Some? ==> r.gte.value <= y) && (r.lte.Some? ==> y <= r.lte.value)
  }

  /** Whether the store selects `b` for the filter document `f`. */
  predicate MatchesFilter(b: Book, f: Filter) {
    && (f.textOr.Some? ==>
          ContainsIgnoringCase(b.title, f.textOr.value) || ContainsIgnoringCase(b.authors, f.textOr.value))
    && (f.avgGte.Some? ==> b.averageRating >= f.avgGte.value)
    && (f.year.Some? ==> InRange(b.originalPublicationYear, f.year.value))
  }

  /** `find(filter)`: the selected books in the collection's natural order. */
  function Find(books: seq<Book>, f: Filter): seq<Book> {
    if books == [] then []
    else (if MatchesFilter(books[0], f) then [books[0]] else []) + Find(books[1..], f)
  }

  // ---------------------------------------------------------------------------
  // The listing as documented, stated on the raw parameters

  /** The documented conditions on a listed book: `q` (when non-empty) occurs in
      the title or the authors ignoring case, `average_rating >= min_avg`, and
      `year_from <= original_publication_year <= year_to`, each only when given. */
  predicate Satisfies(b: Book, req: BookQuery) {
    && (req.q.Some? && req.q.value != "" ==>
          ContainsIgnoringCase(b.title, req.q.value) || ContainsIgnoringCase(b.authors, req.q.value))
    && (req.minAvg.Some? ==> b.averageRating >= req.minAvg.value)
    && (req.yearFrom.Some? ==> req.yearFrom.value <= b.originalPublicationYear)
    && (req.yearTo.Some? ==> b.originalPublicationYear <= req.yearTo.value)
  }

  /** The books satisfying the request, in natural order. */
  function Matching(books: seq<Book>, req: BookQuery): seq<Book> {
    if books == [] then []
    else (if Satisfies(books[0], req) then [books[0]] else []) + Matching(books[1..], req)
  }

  /** The matching books ordered by `sort_map[sort]` in the direction `order`. */
  function Ordered(books: seq<Book>, req: BookQuery): seq<Book>
    requires req.sort in SortMap
  {
    SortBy(Matching(books, req), SortKey(SortMap[req.sort]), req.order == "desc")
  }

  /** With no filter every stored book matches, in natural order. */
  lemma {:induction false} DefaultMatchesAll(books: seq<Book>)
    ensures Matching(books, DefaultQuery) == books
  {
    if books != [] {
      DefaultMatchesAll(books[1..]);
      assert [books[0]] + books[1..] == books;
    }
  }

  /** The default request is valid, and it lists every book by average rating,
      highest first: the ordered listing is a permutation of the collection,
      non-increasing in `average_rating`, and its first page holds the first
      `min(20, |books|)` of them. */
  lemma DefaultListing(books: seq<Book>)
    ensures ValidQuery(DefaultQuery)
    ensures var o := Ordered(books, DefaultQuery);
      && multiset(o) == multiset(books)
      && SortedBy(o, SortKey(AverageRating), true)
      && PageWindow(o, DefaultPage, DefaultPageSize) == o[..Min(DefaultPageSize, |books|)]
  {
    DefaultMatchesAll(books);
    OrderedIsSortedPermutation(books, DefaultQuery);
  }

  /** A filter document selects exactly the matching books when it agrees with
      the documented conditions on every book. */
  lemma {:induction false} FindIsMatching(books: seq<Book>, f: Filter, req: BookQuery)
    requires forall b :: MatchesFilter(b, f) == Satisfies(b, req)
    ensures Find(books, f) == Matching(books, req)
  {
    if books != [] {
      FindIsMatching(books[1..], f, req);
    }
  }

  /** `Matching` keeps each satisfying book as often as the collection holds it and drops the rest. */
  lemma {:induction false} MatchingCounts(books: seq<Book>, req: BookQuery, b: Book)
    ensures multiset(Matching(books, req))[b] == if Satisfies(b, req) then multiset(books)[b] else 0
  {
    if books != [] {
      MatchingCounts(books[1..], req, b);
      assert books == [books[0]] + books[1..];
    }
  }

  lemma MatchingMembers(books: seq<Book>, req: BookQuery, b: Book)
    ensures b in Matching(books, req) <==> b in books && Satisfies(b, req)
  {
    MatchingCounts(books, req, b);
    assert b in Matching(books, req) <==> b in multiset(Matching(books, req));
    assert b in books <==> b in multiset(books);
  }

  /** The full ordered listing is a permutation of the matching books and is
      sorted by the selected field: non-increasing for `desc`, non-decreasing for `asc`. */
  lemma OrderedIsSortedPermutation(books: seq<Book>, req: BookQuery)
    requires req.sort in SortMap
    ensures multiset(Ordered(books, req)) == multiset(Matching(books, req))
    ensures |Ordered(books, req)| == |Matching(books, req)|
    ensures SortedBy(Ordered(books, req), SortKey(SortMap[req.sort]), req.order == "desc")
  {
    SortByCorrect(Matching(books, req), SortKey(SortMap[req.sort]), req.order == "desc");
  }

  /** Every book on any page is a stored book satisfying the request. */
  lemma PageSatisfies(books: seq<Book>, req: BookQuery)
    requires ValidQuery(req)
    ensures forall b :: b in PageWindow(Ordered(books, req), req.page, req.pageSize) ==>
      b in books && Satisfies(b, req)
  {
    OrderedIsSortedPermutation(books, req);
    var w := PageWindow(Ordered(books, req), req.page, req.pageSize);
    forall b | b in w ensures b in books && Satisfies(b, req) {
      var k :| 0 <= k < |w| && w[k] == b;
      assert b in multiset(Ordered(books, req));
      MatchingMembers(books, req, b);
    }
  }

  /** The page holds `min(page_size, max(0, total - (page-1)*page_size))` books,
      where `total` is the number of matching books. */
  lemma PageSize(books: seq<Book>, req: BookQuery)
    requires ValidQuery(req)
    ensures |PageWindow(Ordered(books, req), req.page, req.pageSize)| ==
      Min(req.pageSize, Max(0, |Matching(books, req)| - (req.page - 1) * req.pageSize))
  {
    var m := Matching(books, req);
    var key := SortKey(SortMap[req.sort]);
    var descending := req.order == "desc";
    assert Ordered(books, req) == SortBy(m, key, descending);
    SortedWindowSize(m, key, descending, req.page, req.pageSize);
  }

  // ---------------------------------------------------------------------------
  // The handlers

  /** The filter-construction part of `list_books`: the `$or` text condition
      only for a non-empty `q`, the rating bound only when given, and the year
      range only when at least one bound is given. */
  method BuildFilter(req: BookQuery) returns (filter: Filter)
    ensures forall b :: MatchesFilter(b, filter) == Satisfies(b, req)
  {
    filter := Filter(None, None, None);
    if req.q.Some? && req.q.value != "" {
      filter := filter.(textOr := req.q);
    }
    if req.minAvg.Some? {
      filter := filter.(avgGte := req.minAvg);
    }
    var yearFilter := YearRange(None, None);
    if req.yearFrom.Some? {
      yearFilter := yearFilter.(gte := req.yearFrom);
    }
    if req.yearTo.Some? {
      yearFilter := yearFilter.(lte := req.yearTo);
    }
    if yearFilter != YearRange(None, None) {
      filter := filter.(year := Some(yearFilter));
    }
  }

  /** `list_books`: validates the parameters, builds the filter document
      condition by condition, counts the matches, then copies the requested
      window of the sorted cursor into `items`. */
  method ListBooks(books: seq<Book>, req: BookQuery) returns (r: Result<Page<Book>>)
    ensures r.Err? <==> !ValidQuery(req)
    ensures r.Err? ==> r.error == Validation
    ensures r.Ok? ==> r.value.page == req.page && r.value.pageSize == req.pageSize
    ensures r.Ok? ==> r.value.total == |Matching(books, req)|
    ensures r.Ok? ==> r.value.items == PageWindow(Ordered(books, req), req.page, req.pageSize)
    ensures r.Ok? ==> forall b :: b in r.value.items ==> b in books && Satisfies(b, req)
  {
    if !ValidQuery(req) {
      return Err(Validation);
    }
    var filter := BuildFilter(req);
    var descending := req.order == "desc";
    FindOrdered(books, filter, req);
    var found := Find(books, filter);
    var total := |found|;
    var cursor := PageWindow(SortBy(found, SortKey(SortMap[req.sort]), descending), req.page, req.pageSize);
    var items := CopyCursor(cursor);
    PageSatisfies(books, req);
    return Ok(Page(items, req.page, req.pageSize, total));
  }

  /** The `for book in books_cursor: items.append(book)` loop. */
  method CopyCursor(cursor: seq<Book>) returns (items: seq<Book>)
    ensures items == cursor
  {
    items := [];
    for i := 0 to |cursor|
      invariant items == cursor[..i]
    {
      items := items + [cursor[i]];
    }
  }

  /** The store's answer to the built filter is the documented listing. */
  lemma FindOrdered(books: seq<Book>, f: Filter, req: BookQuery)
    requires req.sort in SortMap
    requires forall b :: MatchesFilter(b, f) == Satisfies(b, req)
    ensures |Find(books, f)| == |Matching(books, req)|
    ensures SortBy(Find(books, f), SortKey(SortMap[req.sort]), req.order == "desc") == Ordered(books, req)
  {
    FindIsMatching(books, f, req);
  }

  /** `get_book`: the first book with the requested `book_id`, or `NotFound`. */
  function GetBook(books: seq<Book>, id: int): (r: Result<Book>)
    ensures r.Ok? ==> r.value in books && r.value.bookId == id
    ensures r.Err? <==> forall b :: b in books ==> b.bookId != id
    ensures r.Err? ==> r.error == NotFound
  {
    if books == [] then Err(NotFound)
    else if books[0].bookId == id then Ok(books[0])
    else GetBook(books[1..], id)
  }

  /** Under the unique index, the lookup returns the one book with that id. */
  lemma {:induction false} GetBookUnique(books: seq<Book>, b: Book)
    requires UniqueBookIds(books) && b in books
    ensures GetBook(books, b.bookId) == Ok(b)
  {
    if books[0] != b {
      assert books[0].bookId != b.bookId by {
        var j :| 0 <= j < |books| && books[j] == b;
      }
      assert b in books[1..];
      GetBookUnique(books[1..], b);
    }
  }
}
