/** The tag popularity route `GET /tags`: every tag joined (left join) to its
    `book_tags` associations, counted, sorted by that count in descending
    order and paged. */
module Tags {
  import opened Common
  import opened Ordering

  /** A document of the `tags` collection. */
  datatype Tag = Tag(tagId: int, tagName: string)

  /** A document of the `book_tags` association collection. */
  datatype BookTag = BookTag(goodreadsBookId: int, tagId: int, count: int)

  /** The projected `{tag_id, tag_name, book_count}` row. */
  datatype TagUsage = TagUsage(tagId: int, tagName: string, bookCount: nat)

  /** `$size` of the `$lookup` array: the association rows naming the tag. */
  function UsageCount(bookTags: seq<BookTag>, tagId: int): nat {
    if bookTags == [] then 0
    else (if bookTags[0].tagId == tagId then 1 else 0) + UsageCount(bookTags[1..], tagId)
  }

  /** The `$lookup` and `$project` stages: one row per tag, in natural order. */
  function Usages(tags: seq<Tag>, bookTags: seq<BookTag>): (u: seq<TagUsage>)
    ensures |u| == |tags|
    ensures forall i :: 0 <= i < |tags| ==>
      u[i] == TagUsage(tags[i].tagId, tags[i].tagName, UsageCount(bookTags, tags[i].tagId))
  {
    if tags == [] then []
    else [TagUsage(tags[0].tagId, tags[0].tagName, UsageCount(bookTags, tags[0].tagId))] + Usages(tags[1..], bookTags)
  }

  function BookCountKey(t: TagUsage): Key {
    Num(t.bookCount as real)
  }

  /** `{"$sort": {"book_count": -1}}` over all projected rows. */
  function Popularity(tags: seq<Tag>, bookTags: seq<BookTag>): seq<TagUsage> {
    SortBy(Usages(tags, bookTags), BookCountKey, true)
  }

  /** `list_tags`: the requested window of the popularity order; `total` is the number of tags. */
  function ListTags(tags: seq<Tag>, bookTags: seq<BookTag>, page: int, pageSize: int): Result<Page<TagUsage>> {
    if !ValidPaging(page, pageSize) then Err(Validation)
    else Ok(Page(PageWindow(Popularity(tags, bookTags), page, pageSize), page, pageSize, |tags|))
  }

  /** No tag is dropped: the popularity order is a permutation of the tags'
      projected rows, each carrying its association count (0 for an unused tag),
      and it is ordered by `book_count`, non-increasing. */
  lemma PopularitySortedPermutation(tags: seq<Tag>, bookTags: seq<BookTag>)
    ensures var p := Popularity(tags, bookTags);
      && multiset(p) == multiset(Usages(tags, bookTags))
      && |p| == |tags|
      && (forall i, j :: 0 <= i < j < |p| ==> p[i].bookCount >= p[j].bookCount)
  {
    SortByCorrect(Usages(tags, bookTags), BookCountKey, true);
    var p := Popularity(tags, bookTags);
    forall i, j | 0 <= i < j < |p| ensures p[i].bookCount >= p[j].bookCount {
      assert InOrder(BookCountKey(p[i]), BookCountKey(p[j]), true);
    }
  }

  /** Every tag appears in the popularity order with its own name and count. */
  lemma EveryTagListed(tags: seq<Tag>, bookTags: seq<BookTag>, i: int)
    requires 0 <= i < |tags|
    ensures TagUsage(tags[i].tagId, tags[i].tagName, UsageCount(bookTags, tags[i].tagId)) in Popularity(tags, bookTags)
  {
    PopularitySortedPermutation(tags, bookTags);
    var u := Usages(tags, bookTags);
    assert u[i] in multiset(u);
  }

  /** Every row of the popularity order is some tag with its association count. */
  lemma ListedRowsAreTags(tags: seq<Tag>, bookTags: seq<BookTag>, t: TagUsage)
    requires t in Popularity(tags, bookTags)
    ensures t.bookCount == UsageCount(bookTags, t.tagId)
    ensures Tag(t.tagId, t.tagName) in tags
  {
    PopularitySortedPermutation(tags, bookTags);
    var u := Usages(tags, bookTags);
    assert t in multiset(u);
    var i :| 0 <= i < |u| && u[i] == t;
    assert tags[i] == Tag(t.tagId, t.tagName);
  }

  /** `book_count` is exactly the number of association rows naming the tag:
      adding a row for the tag raises it by one, a row for another tag leaves it. */
  lemma {:induction false} UsageCountAppend(bookTags: seq<BookTag>, x: BookTag, tagId: int)
    ensures UsageCount(bookTags + [x], tagId) == UsageCount(bookTags, tagId) + (if x.tagId == tagId then 1 else 0)
  {
    if bookTags != [] {
      UsageCountAppend(bookTags[1..], x, tagId);
      assert (bookTags + [x])[1..] == bookTags[1..] + [x];
    }
  }

  /** The page shape: at most `page_size` rows, the window at `(page-1)*page_size`
      of the popularity order, and `total` is the number of tags, whatever the
      associations and the page requested. */
  lemma ListTagsPage(tags: seq<Tag>, bookTags: seq<BookTag>, page: int, pageSize: int)
    ensures ListTags(tags, bookTags, page, pageSize).Err? <==> !ValidPaging(page, pageSize)
    ensures ListTags(tags, bookTags, page, pageSize).Ok? ==>
      var r := ListTags(tags, bookTags, page, pageSize).value;
      && r.total == |tags|
      && |r.items| == Min(pageSize, Max(0, |tags| - (page - 1) * pageSize))
      && forall k :: 0 <= k < |r.items| ==> r.items[k] == Popularity(tags, bookTags)[(page - 1) * pageSize + k]
  {
    if ValidPaging(page, pageSize) {
      PopularitySortedPermutation(tags, bookTags);
      var p := Popularity(tags, bookTags);
      assert |PageWindow(p, page, pageSize)| == Min(pageSize, Max(0, |p| - Offset(page, pageSize)));
    }
  }

  /** A request without paging parameters gets the 20 most used tags (all of
      them when there are fewer), with `total` the number of tags. */
  lemma DefaultTagPage(tags: seq<Tag>, bookTags: seq<BookTag>)
    ensures var r := ListTags(tags, bookTags, DefaultPage, DefaultPageSize);
      var p := Popularity(tags, bookTags);
      && r.Ok?
      && |p| == |tags|
      && r.value.items == p[..Min(DefaultPageSize, |p|)]
      && r.value.total == |tags|
  {
    PopularitySortedPermutation(tags, bookTags);
  }
}
