/** The ratings routes: `GET /books/{book_id}/ratings/summary` (average,
    count and a 1..5 histogram of one book's ratings) and `POST /ratings`
    (an upsert keyed on the user and the book, behind the `x-api-key` gate). */
module Ratings {
  import opened Common

  /** A document of the `ratings` collection. */
  datatype Rating = Rating(userId: int, bookId: int, rating: int)

  /** The body of `POST /ratings`; its `rating` must lie in 1..5. */
  datatype RatingIn = RatingIn(userId: int, bookId: int, rating: int)

  predicate ValidRatingIn(x: RatingIn) {
    1 <= x.rating <= 5
  }

  predicate SamePair(r: Rating, userId: int, bookId: int) {
    r.userId == userId && r.bookId == bookId
  }

  /** The unique composite index on `(user_id, book_id)`. */
  ghost predicate UniquePairs(rs: seq<Rating>) {
    forall i, j :: 0 <= i < j < |rs| ==> !SamePair(rs[j], rs[i].userId, rs[i].bookId)
  }

  // ---------------------------------------------------------------------------
  // Ratings summary

  /** The `$match` and `$push: "$rating"` stages: one book's scores in natural order. */
  function ScoresOf(rs: seq<Rating>, bookId: int): seq<int> {
    if rs == [] then []
    else ScoresOf(rs[..|rs| - 1], bookId) + (if rs[|rs| - 1].bookId == bookId then [rs[|rs| - 1].rating] else [])
  }

  function Sum(vs: seq<int>): int {
    if vs == [] then 0 else Sum(vs[..|vs| - 1]) + vs[|vs| - 1]
  }

  /** The number of scores equal to `k`. */
  function CountOf(vs: seq<int>, k: int): nat {
    if vs == [] then 0 else CountOf(vs[..|vs| - 1], k) + (if vs[|vs| - 1] == k then 1 else 0)
  }

  predicate IsScore(v: int) {
    1 <= v <= 5
  }

  /** Every score has a histogram bucket. */
  predicate AllScores(vs: seq<int>) {
    forall i :: 0 <= i < |vs| ==> IsScore(vs[i])
  }

  /** The histogram of `vs` over the buckets 1..5. */
  function Histogram(vs: seq<int>): map<int, nat> {
    map k | 1 <= k <= 5 :: CountOf(vs, k)
  }

  /** The response of the summary route (the average before display rounding). */
  datatype Summary = Summary(bookId: int, averageRating: real, ratingsCount: nat, histogram: map<int, nat>)

  /** What the summary route answers: `NotFound` for a book without ratings,
      a server error when a stored score has no histogram bucket, and otherwise
      the mean score, the number of scores and the count of each score 1..5. */
  function SummaryOf(rs: seq<Rating>, bookId: int): Result<Summary> {
    var vs := ScoresOf(rs, bookId);
    if vs == [] then Err(NotFound)
    else if !AllScores(vs) then Err(ServerError)
    else Ok(Summary(bookId, Sum(vs) as real / |vs| as real, |vs|, Histogram(vs)))
  }

  /** `get_ratings_summary`: runs the match-and-group pipeline, then builds the
      histogram with keys 1..5 by incrementing one bucket per score. */
  method RatingsSummary(rs: seq<Rating>, bookId: int) returns (r: Result<Summary>)
    ensures r == SummaryOf(rs, bookId)
  {
    var scores := ScoresOf(rs, bookId);
    if scores == [] {
      return Err(NotFound);
    }
    var average := Sum(scores) as real / |scores| as real;
    var count := |scores|;
    var histogram: map<int, nat> := map[1 := 0, 2 := 0, 3 := 0, 4 := 0, 5 := 0];
    assert histogram == Histogram(scores[..0]);
    for i := 0 to |scores|
      invariant histogram == Histogram(scores[..i])
      invariant AllScores(scores[..i])
    {
      var v := scores[i];
      if v !in histogram {
        assert !IsScore(scores[i]);
        return Err(ServerError);
      }
      HistogramSnoc(scores[..i], v);
      assert scores[..i + 1] == scores[..i] + [v];
      histogram := histogram[v := histogram[v] + 1];
    }
    assert scores[..|scores|] == scores;
    return Ok(Summary(bookId, average, count, histogram));
  }

  /** One more score adds one to its own bucket. */
  lemma HistogramSnoc(vs: seq<int>, v: int)
    requires IsScore(v)
    ensures Histogram(vs + [v]) == Histogram(vs)[v := Histogram(vs)[v] + 1]
  {
    assert (vs + [v])[..|vs|] == vs;
  }

  lemma {:induction false} HistogramTotal(vs: seq<int>)
    requires AllScores(vs)
    ensures CountOf(vs, 1) + CountOf(vs, 2) + CountOf(vs, 3) + CountOf(vs, 4) + CountOf(vs, 5) == |vs|
  {
    if vs != [] {
      HistogramTotal(vs[..|vs| - 1]);
    }
  }

  lemma {:induction false} SumByScore(vs: seq<int>)
    requires AllScores(vs)
    ensures Sum(vs) == CountOf(vs, 1) + 2 * CountOf(vs, 2) + 3 * CountOf(vs, 3) + 4 * CountOf(vs, 4) + 5 * CountOf(vs, 5)
  {
    if vs != [] {
      SumByScore(vs[..|vs| - 1]);
    }
  }

  /** The number of ratings whose `book_id` is `bookId`. */
  function RatingsFor(rs: seq<Rating>, bookId: int): nat {
    if rs == [] then 0 else RatingsFor(rs[..|rs| - 1], bookId) + (if rs[|rs| - 1].bookId == bookId then 1 else 0)
  }

  lemma {:induction false} ScoresOfCount(rs: seq<Rating>, bookId: int)
    ensures |ScoresOf(rs, bookId)| == RatingsFor(rs, bookId)
  {
    if rs != [] {
      ScoresOfCount(rs[..|rs| - 1], bookId);
    }
  }

  /** The histogram has exactly the keys 1..5, its counts sum to `ratings_count`,
      `ratings_count` is the number of the book's ratings, and the average is the
      histogram-weighted sum of the scores divided by `ratings_count`. */
  lemma SummaryConsistent(rs: seq<Rating>, bookId: int)
    requires SummaryOf(rs, bookId).Ok?
    ensures var s := SummaryOf(rs, bookId).value;
      && s.bookId == bookId
      && s.histogram.Keys == {1, 2, 3, 4, 5}
      && s.ratingsCount == RatingsFor(rs, bookId) > 0
      && s.histogram[1] + s.histogram[2] + s.histogram[3] + s.histogram[4] + s.histogram[5] == s.ratingsCount
      && s.averageRating ==
         (s.histogram[1] + 2 * s.histogram[2] + 3 * s.histogram[3] + 4 * s.histogram[4] + 5 * s.histogram[5]) as real
         / s.ratingsCount as real
  {
    var vs := ScoresOf(rs, bookId);
    var s := SummaryOf(rs, bookId).value;
    assert s == Summary(bookId, Sum(vs) as real / |vs| as real, |vs|, Histogram(vs));
    var h := s.histogram;
    assert h[1] == CountOf(vs, 1) && h[2] == CountOf(vs, 2) && h[3] == CountOf(vs, 3);
    assert h[4] == CountOf(vs, 4) && h[5] == CountOf(vs, 5);
    HistogramTotal(vs);
    SumByScore(vs);
    ScoresOfCount(rs, bookId);
    assert (h[1] + 2 * h[2] + 3 * h[3] + 4 * h[4] + 5 * h[5]) == Sum(vs);
  }

  /** The only failures: `NotFound` exactly when no rating has that `book_id`,
      a server error exactly when one of its scores lies outside 1..5. */
  lemma {:induction false} SummaryFailures(rs: seq<Rating>, bookId: int)
    ensures SummaryOf(rs, bookId) == Err(NotFound) <==> forall r :: r in rs ==> r.bookId != bookId
    ensures SummaryOf(rs, bookId) == Err(ServerError) <==>
      exists r :: r in rs && r.bookId == bookId && !IsScore(r.rating)
  {
    ScoresOfCount(rs, bookId);
    RatingsForZero(rs, bookId);
    ScoresOfMembers(rs, bookId);
    var vs := ScoresOf(rs, bookId);
    if !AllScores(vs) {
      var i :| 0 <= i < |vs| && !IsScore(vs[i]);
      assert vs[i] in vs;
    }
    if exists r :: r in rs && r.bookId == bookId && !IsScore(r.rating) {
      var r :| r in rs && r.bookId == bookId && !IsScore(r.rating);
      assert r.rating in vs;
    }
  }

  lemma {:induction false} RatingsForZero(rs: seq<Rating>, bookId: int)
    ensures RatingsFor(rs, bookId) == 0 <==> forall r :: r in rs ==> r.bookId != bookId
  {
    if rs != [] {
      RatingsForZero(rs[..|rs| - 1], bookId);
      assert rs == rs[..|rs| - 1] + [rs[|rs| - 1]];
    }
  }

  /** A score appears for the book exactly when some rating of the book carries it. */
  lemma {:induction false} ScoresOfMembers(rs: seq<Rating>, bookId: int)
    ensures forall v :: v in ScoresOf(rs, bookId) <==> exists r :: r in rs && r.bookId == bookId && r.rating == v
  {
    if rs != [] {
      ScoresOfMembers(rs[..|rs| - 1], bookId);
      assert rs == rs[..|rs| - 1] + [rs[|rs| - 1]];
    }
  }

  /** Ratings of other books do not contribute, wherever they are stored. */
  lemma {:induction false} SummaryIgnoresOtherBooks(front: seq<Rating>, x: Rating, back: seq<Rating>, bookId: int)
    requires x.bookId != bookId
    ensures SummaryOf(front + [x] + back, bookId) == SummaryOf(front + back, bookId)
  {
    ScoresSkipOther(front, x, back, bookId);
  }

  lemma {:induction false} ScoresSkipOther(front: seq<Rating>, x: Rating, back: seq<Rating>, bookId: int)
    requires x.bookId != bookId
    ensures ScoresOf(front + [x] + back, bookId) == ScoresOf(front + back, bookId)
    decreases |back|
  {
    if back == [] {
      assert (front + [x] + back)[..|front + [x] + back| - 1] == front;
      assert front + back == front;
    } else {
      var init := back[..|back| - 1];
      ScoresSkipOther(front, x, init, bookId);
      assert (front + [x] + back)[..|front + [x] + back| - 1] == front + [x] + init;
      assert (front + back)[..|front + back| - 1] == front + init;
    }
  }

  // ---------------------------------------------------------------------------
  // Rating upsert

  /** The first position holding the pair, as the store's `update_one` finds it. */
  function FindPair(rs: seq<Rating>, userId: int, bookId: int): (r: Option<nat>)
    ensures r.Some? ==> r.value < |rs| && SamePair(rs[r.value], userId, bookId)
    ensures r.Some? ==> forall j :: 0 <= j < r.value ==> !SamePair(rs[j], userId, bookId)
    ensures r.None? <==> forall j :: 0 <= j < |rs| ==> !SamePair(rs[j], userId, bookId)
  {
    if rs == [] then None
    else if SamePair(rs[0], userId, bookId) then Some(0)
    else match FindPair(rs[1..], userId, bookId)
      case None => None
      case Some(i) => Some(i + 1)
  }

  datatype Upserted = Upserted(ratings: seq<Rating>, created: bool)

  /** `update_one({user_id, book_id}, {"$set": rating}, upsert=True)`: overwrite
      the first document with the pair, or append a new one. */
  function Upsert(rs: seq<Rating>, x: RatingIn): Upserted {
    match FindPair(rs, x.userId, x.bookId)
    case Some(i) => Upserted(rs[i := Rating(x.userId, x.bookId, x.rating)], false)
    case None => Upserted(rs + [Rating(x.userId, x.bookId, x.rating)], true)
  }

  /** The upsert reports "created" exactly when no document held the pair. */
  lemma UpsertCreatedIff(rs: seq<Rating>, x: RatingIn)
    ensures Upsert(rs, x).created <==> forall r :: r in rs ==> !SamePair(r, x.userId, x.bookId)
  {
    if !Upsert(rs, x).created {
      var i := FindPair(rs, x.userId, x.bookId).value;
      assert rs[i] in rs;
    }
  }

  /** After the upsert exactly one document holds the pair, and it carries the
      new score; documents of every other pair stay where and as they were. */
  lemma UpsertStores(rs: seq<Rating>, x: RatingIn)
    requires UniquePairs(rs)
    ensures var res := Upsert(rs, x).ratings;
      && UniquePairs(res)
      && |res| == |rs| + (if Upsert(rs, x).created then 1 else 0)
      && (exists i :: 0 <= i < |res| && res[i] == Rating(x.userId, x.bookId, x.rating) &&
            forall j :: 0 <= j < |res| && j != i ==> !SamePair(res[j], x.userId, x.bookId))
      && (forall j :: 0 <= j < |rs| && !SamePair(rs[j], x.userId, x.bookId) ==> res[j] == rs[j])
  {
    var res := Upsert(rs, x).ratings;
    match FindPair(rs, x.userId, x.bookId)
    case Some(i) =>
      assert res[i] == Rating(x.userId, x.bookId, x.rating);
      forall j | 0 <= j < |res| && j != i ensures !SamePair(res[j], x.userId, x.bookId) {
        if j < i {
          assert !SamePair(rs[j], rs[i].userId, rs[i].bookId);
        } else {
          assert !SamePair(rs[j], rs[i].userId, rs[i].bookId);
        }
      }
    case None =>
      assert res[|rs|] == Rating(x.userId, x.bookId, x.rating);
  }

  /** Submitting the same rating again changes nothing and reports "updated". */
  lemma UpsertIdempotent(rs: seq<Rating>, x: RatingIn)
    ensures Upsert(Upsert(rs, x).ratings, x) == Upserted(Upsert(rs, x).ratings, false)
  {
    var res := Upsert(rs, x).ratings;
    var i' := match FindPair(rs, x.userId, x.bookId) case Some(i) => i case None => |rs|;
    assert SamePair(res[i'], x.userId, x.bookId);
    var k := FindPair(res, x.userId, x.bookId).value;
    assert k <= i';
    if FindPair(rs, x.userId, x.bookId).Some? {
      assert k == i';
    } else {
      assert k == |rs|;
    }
    assert res[k] == Rating(x.userId, x.bookId, x.rating);
    assert res[k := Rating(x.userId, x.bookId, x.rating)] == res;
  }

  /** `require_api_key`: the `x-api-key` header must equal the configured key. */
  predicate Authorized(configured: string, header: Option<string>) {
    header == Some(configured)
  }

  /** The `ratings` collection as the routes see it. */
  class RatingStore {
    const apiKey: string
    var ratings: seq<Rating>

    ghost predicate Valid()
      reads this
    {
      UniquePairs(ratings)
    }

    constructor (apiKey: string, ratings: seq<Rating>)
      requires UniquePairs(ratings)
      ensures Valid() && this.apiKey == apiKey && this.ratings == ratings
    {
      this.apiKey := apiKey;
      this.ratings := ratings;
    }

    /** `create_rating`: the key gate, then the body's 1..5 check, then the
        upsert; the result says whether a document was created. */
    method CreateRating(header: Option<string>, body: RatingIn) returns (r: Result<bool>)
      requires Valid()
      modifies this
      ensures Valid()
      ensures !Authorized(apiKey, header) ==> r == Err(Unauthorized) && ratings == old(ratings)
      ensures Authorized(apiKey, header) && !ValidRatingIn(body) ==>
        r == Err(Validation) && ratings == old(ratings)
      ensures Authorized(apiKey, header) && ValidRatingIn(body) ==>
        r == Ok(Upsert(old(ratings), body).created) && ratings == Upsert(old(ratings), body).ratings
    {
      if !Authorized(apiKey, header) {
        return Err(Unauthorized);
      }
      if !ValidRatingIn(body) {
        return Err(Validation);
      }
      UpsertStores(ratings, body);
      var u := Upsert(ratings, body);
      ratings := u.ratings;
      return Ok(u.created);
    }

    /** The summary route over the store's current contents. */
    method Summary(bookId: int) returns (r: Result<Summary>)
      ensures r == SummaryOf(ratings, bookId)
    {
      r := RatingsSummary(ratings, bookId);
    }
  }

  /** User 7 rates book 1 three times, with 3, 3 and 5: one document remains and
      the summary reports one rating of 5. */
  lemma RepeatedRatingExample()
    ensures var s1 := Upsert([], RatingIn(7, 1, 3)).ratings;
      var s2 := Upsert(s1, RatingIn(7, 1, 3)).ratings;
      var s3 := Upsert(s2, RatingIn(7, 1, 5)).ratings;
      s3 == [Rating(7, 1, 5)] &&
      SummaryOf(s3, 1) == Ok(Summary(1, 5.0, 1, map[1 := 0, 2 := 0, 3 := 0, 4 := 0, 5 := 1]))
  {
    var s3 := [Rating(7, 1, 5)];
    assert ScoresOf(s3, 1) == [5];
    var h := map k | 1 <= k <= 5 :: CountOf([5], k);
    assert [5][..0] == [];
    assert h == map[1 := 0, 2 := 0, 3 := 0, 4 := 0, 5 := 1];
  }
}
