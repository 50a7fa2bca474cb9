/** The reading-list route `GET /users/{user_id}/to-read`: one user's
    `to_read` rows joined (inner join) to the `books` collection, projected
    and paged. `total` counts the user's rows before the join, so it exceeds
    the number of joined items when a row names a book that is not stored. */
module Users {
  import opened Common
  import opened Books

  /** A document of the `to_read` collection. */
  datatype ToRead = ToRead(userId: int, bookId: int)

  /** The projected item: the row's `book_id` and the matched book's details. */
  datatype ToReadItem = ToReadItem(bookId: int, title: string, authors: string, averageRating: real, imageUrl: string)

  datatype ToReadPage = ToReadPage(userId: int, items: seq<ToReadItem>, page: int, pageSize: int, total: int)

  /** The `$match` stage (and the `count_documents` filter): the user's rows in natural order. */
  function RowsOf(toRead: seq<ToRead>, userId: int): seq<ToRead> {
    if toRead == [] then []
    else (if toRead[0].userId == userId then [toRead[0]] else []) + RowsOf(toRead[1..], userId)
  }

  /** The `$project` stage for a row and one of its matched books. */
  function Project(row: ToRead, b: Book): ToReadItem {
    ToReadItem(row.bookId, b.title, b.authors, b.averageRating, b.imageUrl)
  }

  /** `$lookup` then `$unwind` for one row: one item per book with the row's
      `book_id`, none when there is no such book. */
  function JoinRow(row: ToRead, books: seq<Book>): seq<ToReadItem> {
    if books == [] then []
    else (if books[0].bookId == row.bookId then [Project(row, books[0])] else []) + JoinRow(row, books[1..])
  }

  /** The joined sequence: each row's items in row order. */
  function Joined(rows: seq<ToRead>, books: seq<Book>): seq<ToReadItem> {
    if rows == [] then [] else JoinRow(rows[0], books) + Joined(rows[1..], books)
  }

  /** `get_user_to_read_list`. */
  function GetUserToRead(toRead: seq<ToRead>, books: seq<Book>, userId: int, page: int, pageSize: int): Result<ToReadPage> {
    if !ValidPaging(page, pageSize) then Err(Validation)
    else
      var rows := RowsOf(toRead, userId);
      Ok(ToReadPage(userId, PageWindow(Joined(rows, books), page, pageSize), page, pageSize, |rows|))
  }

  predicate HasBook(row: ToRead, books: seq<Book>) {
    exists b :: b in books && b.bookId == row.bookId
  }

  lemma {:induction false} RowsOfMembers(toRead: seq<ToRead>, userId: int, row: ToRead)
    ensures row in RowsOf(toRead, userId) <==> row in toRead && row.userId == userId
  {
    if toRead != [] {
      RowsOfMembers(toRead[1..], userId, row);
      assert toRead == [toRead[0]] + toRead[1..];
    }
  }

  lemma {:induction false} JoinRowMembers(row: ToRead, books: seq<Book>, item: ToReadItem)
    ensures item in JoinRow(row, books) <==> exists b :: b in books && b.bookId == row.bookId && item == Project(row, b)
  {
    if books != [] {
      JoinRowMembers(row, books[1..], item);
      assert books == [books[0]] + books[1..];
    }
  }

  lemma {:induction false} JoinedMembers(rows: seq<ToRead>, books: seq<Book>, item: ToReadItem)
    ensures item in Joined(rows, books) <==> exists row :: row in rows && item in JoinRow(row, books)
  {
    if rows != [] {
      JoinedMembers(rows[1..], books, item);
      if item in Joined(rows[1..], books) {
        var row :| row in rows[1..] && item in JoinRow(row, books);
        assert row in rows;
      }
      if exists row :: row in rows && item in JoinRow(row, books) {
        var row :| row in rows && item in JoinRow(row, books);
        if row != rows[0] {
          assert row in rows[1..];
        }
      }
    }
  }

  /** Inner join, both directions: an item is listed exactly when it is the
      projection of one of the user's rows with a stored book of that `book_id`;
      its `book_id` is the row's and its details are the book's. */
  lemma JoinedIff(toRead: seq<ToRead>, books: seq<Book>, userId: int, item: ToReadItem)
    ensures item in Joined(RowsOf(toRead, userId), books) <==>
      exists row, b :: row in toRead && row.userId == userId && b in books && b.bookId == row.bookId &&
        item == ToReadItem(row.bookId, b.title, b.authors, b.averageRating, b.imageUrl)
  {
    var rows := RowsOf(toRead, userId);
    JoinedMembers(rows, books, item);
    if item in Joined(rows, books) {
      var row :| row in rows && item in JoinRow(row, books);
      RowsOfMembers(toRead, userId, row);
      JoinRowMembers(row, books, item);
    }
    forall row, b | row in toRead && row.userId == userId && b in books && b.bookId == row.bookId &&
        item == ToReadItem(row.bookId, b.title, b.authors, b.averageRating, b.imageUrl)
      ensures item in Joined(rows, books)
    {
      RowsOfMembers(toRead, userId, row);
      JoinRowMembers(row, books, item);
    }
  }

  /** Under the unique index on `book_id` a row yields one item when its book is
      stored and none otherwise. */
  lemma {:induction false} JoinRowSize(row: ToRead, books: seq<Book>)
    requires UniqueBookIds(books)
    ensures |JoinRow(row, books)| == if HasBook(row, books) then 1 else 0
  {
    if books != [] {
      assert UniqueBookIds(books[1..]) by {
        forall i, j | 0 <= i < j < |books[1..]| ensures books[1..][i].bookId != books[1..][j].bookId {
          assert books[1..][i] == books[i + 1] && books[1..][j] == books[j + 1];
        }
      }
      JoinRowSize(row, books[1..]);
      if books[0].bookId == row.bookId {
        forall b | b in books[1..] ensures b.bookId != row.bookId {
          var j :| 0 <= j < |books[1..]| && books[1..][j] == b;
          assert books[j + 1] == b;
        }
      }
      assert books == [books[0]] + books[1..];
    }
  }

  /** The rows whose `book_id` names no stored book. */
  function Unmatched(rows: seq<ToRead>, books: seq<Book>): nat {
    if rows == [] then 0 else (if HasBook(rows[0], books) then 0 else 1) + Unmatched(rows[1..], books)
  }

  /** The join drops exactly the unmatched rows: under the unique index on
      `book_id`, joined items and unmatched rows together number the rows. */
  lemma {:induction false} JoinedSize(rows: seq<ToRead>, books: seq<Book>)
    requires UniqueBookIds(books)
    ensures |Joined(rows, books)| + Unmatched(rows, books) == |rows|
  {
    if rows != [] {
      JoinRowSize(rows[0], books);
      JoinedSize(rows[1..], books);
    }
  }

  /** The page: rejected exactly for invalid paging; otherwise `items` is the
      window at `(page-1)*page_size` of the joined sequence, with
      `min(page_size, max(0, |joined| - (page-1)*page_size))` items, and `total`
      is the number of the user's rows. */
  lemma ToReadPageShape(toRead: seq<ToRead>, books: seq<Book>, userId: int, page: int, pageSize: int)
    ensures GetUserToRead(toRead, books, userId, page, pageSize).Err? <==> !ValidPaging(page, pageSize)
    ensures GetUserToRead(toRead, books, userId, page, pageSize).Ok? ==>
      var r := GetUserToRead(toRead, books, userId, page, pageSize).value;
      var joined := Joined(RowsOf(toRead, userId), books);
      && r.userId == userId && r.page == page && r.pageSize == pageSize
      && r.items == PageWindow(joined, page, pageSize)
      && |r.items| == Min(pageSize, Max(0, |joined| - (page - 1) * pageSize))
      && (forall k :: 0 <= k < |r.items| ==> r.items[k] == joined[(page - 1) * pageSize + k])
      && r.total == |RowsOf(toRead, userId)|
  {
  }

  /** Under the unique index on `book_id`, `total` is the number of joined items
      plus the number of rows whose book is missing, so never below the join's size. */
  lemma ToReadTotal(toRead: seq<ToRead>, books: seq<Book>, userId: int, page: int, pageSize: int)
    requires UniqueBookIds(books)
    ensures GetUserToRead(toRead, books, userId, page, pageSize).Ok? ==>
      var r := GetUserToRead(toRead, books, userId, page, pageSize).value;
      var joined := Joined(RowsOf(toRead, userId), books);
      && r.total == |joined| + Unmatched(RowsOf(toRead, userId), books)
      && r.total >= |joined|
  {
    JoinedSize(RowsOf(toRead, userId), books);
  }

  /** A request without paging parameters gets the first 20 joined items of
      the user's list (all of them when there are fewer). */
  lemma DefaultToReadPage(toRead: seq<ToRead>, books: seq<Book>, userId: int)
    ensures var r := GetUserToRead(toRead, books, userId, DefaultPage, DefaultPageSize);
      var joined := Joined(RowsOf(toRead, userId), books);
      && r.Ok?
      && r.value.items == joined[..Min(DefaultPageSize, |joined|)]
      && r.value.total == |RowsOf(toRead, userId)|
  { }
}
