/** Vocabulary shared by every route of the catalog API: optional values,
    the error taxonomy of the handlers, the paged response shape and the
    skip/limit window that every listing applies to its ordered results. */
module Common {

  datatype Option<+T> = None | Some(value: T)

  /** The failures a request handler reports to its client. */
  datatype ApiError =
    | Validation    // a parameter outside its declared domain (422)
    | Unauthorized  // missing or wrong `x-api-key` header (401)
    | NotFound      // no document for the requested key (404)
    | ServerError   // an exception the handler does not catch (500)

  datatype Result<+T> = Ok(value: T) | Err(error: ApiError)

  /** The `{items, page, page_size, total}` envelope of a listing. */
  datatype Page<T> = Page(items: seq<T>, page: int, pageSize: int, total: int)

  const MaxPageSize: int := 100

  /** The declared domains `page >= 1` and `1 <= page_size <= 100`. */
  predicate ValidPaging(page: int, pageSize: int) {
    page >= 1 && 1 <= pageSize <= MaxPageSize
  }

  /** The defaults `page=1` and `page_size=20` the framework fills in when a
      listing request omits them. */
  const DefaultPage: int := 1
  const DefaultPageSize: int := 20

  /** The default paging lies in the declared domains. */
  lemma DefaultPagingValid()
    ensures ValidPaging(DefaultPage, DefaultPageSize)
  { }

  function Min(a: int, b: int): int { if a <= b then a else b }
  function Max(a: int, b: int): int { if a <= b then b else a }

  /** The number of documents skipped before page `page`: `(page - 1) * page_size`. */
  function Offset(page: int, pageSize: int): nat
    requires page >= 1 && pageSize >= 1
  {
    (page - 1) * pageSize
  }

  /** `skip(n)`: drop the first `n` results (all of them when there are fewer). */
  function Skip<T>(s: seq<T>, n: nat): seq<T> {
    if n <= |s| then s[n..] else []
  }

  /** `limit(n)`: keep at most the first `n` results. */
  function Limit<T>(s: seq<T>, n: nat): seq<T> {
    if n <= |s| then s[..n] else s
  }

  /** `skip((page - 1) * page_size).limit(page_size)` over an ordered result. */
  function PageWindow<T>(s: seq<T>, page: int, pageSize: int): (w: seq<T>)
    requires page >= 1 && pageSize >= 1
    ensures |w| <= pageSize
    ensures |w| == Min(pageSize, Max(0, |s| - Offset(page, pageSize)))
    ensures forall k :: 0 <= k < |w| ==> Offset(page, pageSize) + k < |s| && w[k] == s[Offset(page, pageSize) + k]
  {
    Limit(Skip(s, Offset(page, pageSize)), pageSize)
  }

  /** The window size depends on the length of the ordered result only. */
  lemma WindowSize<T>(s: seq<T>, n: nat, page: int, pageSize: int)
    requires page >= 1 && pageSize >= 1 && |s| == n
    ensures |PageWindow(s, page, pageSize)| == Min(pageSize, Max(0, n - (page - 1) * pageSize))
  {
  }

  /** The windows of consecutive pages tile the ordered result: element `k`
      is shown on page `k / page_size + 1` at position `k % page_size`. */
  lemma {:induction false} WindowCovers<T>(s: seq<T>, pageSize: int, k: nat)
    requires pageSize >= 1 && k < |s|
    ensures k % pageSize < |PageWindow(s, k / pageSize + 1, pageSize)|
    ensures PageWindow(s, k / pageSize + 1, pageSize)[k % pageSize] == s[k]
  {
    var page := k / pageSize + 1;
    assert Offset(page, pageSize) == (k / pageSize) * pageSize;
    assert (k / pageSize) * pageSize + k % pageSize == k;
  }
}
