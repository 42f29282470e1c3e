/** The read-only handlers of the book controller: the filtered, paginated book
    listing (`getAllBooks`), a book with its review statistics and one page of
    its reviews (`getBookById`), and the free-text search (`searchBooks`).
    Each is a function of the stored collections and the query parameters. */
module BookQueries {
  import opened Models
  import opened Sequences
  import opened Paging
  import opened Text

  // ---------------------------------------------------------------------------
  // getAllBooks

  /** One optional listing filter, applied only when the parameter is truthy
      (present and not empty): a case-insensitive partial match on the field. */
  predicate FieldFilter(field: string, filter: Option<string>): (ok: bool)
    ensures filter.None? || filter.value == [] ==> ok
    ensures filter.Some? && filter.value != [] ==>
              (ok <==> exists at :: OccursIgnoringCaseAt(filter.value, field, at))
  {
    MatchesIgnoringCaseIff(field, if filter.Some? then filter.value else []);
    filter.None? || filter.value == [] || MatchesIgnoringCase(field, filter.value)
  }

  /** The listing query: the author filter and the genre filter together. */
  predicate MatchesListing(b: Book, author: Option<string>, genre: Option<string>): (ok: bool)
    ensures ok ==> FieldFilter(b.author, author) && FieldFilter(b.genre, genre)
    ensures (author.None? || author.value == []) ==> (ok <==> FieldFilter(b.genre, genre))
    ensures (genre.None? || genre.value == []) ==> (ok <==> FieldFilter(b.author, author))
  {
    FieldFilter(b.author, author) && FieldFilter(b.genre, genre)
  }

  /** The books `Book.countDocuments(query)` counts and `Book.find(query)` selects. */
  function MatchingBooks(books: seq<Book>, author: Option<string>, genre: Option<string>): (r: seq<Book>)
    ensures forall b :: b in r <==> b in books && MatchesListing(b, author, genre)
  {
    Filter(books, b => MatchesListing(b, author, genre))
  }

  datatype ListingParams = ListingParams(page: int, limit: int, skip: int)

  /** The listing's `page`, `limit` and `skip`: page 1 and limit 10 replace a
      missing, non-numeric or zero value, any other value (negative ones too)
      is kept, and `skip` counts the documents on the earlier pages. */
  function ListingParamsOf(pageArg: JsNumber, limitArg: JsNumber): (p: ListingParams)
    ensures p.limit != 0
    ensures p.page == 1 <==> pageArg == NaN || pageArg == Int(0) || pageArg == Int(1)
    ensures p.limit == 10 <==> limitArg == NaN || limitArg == Int(0) || limitArg == Int(10)
    ensures pageArg.Int? && pageArg.n != 0 ==> p.page == pageArg.n
    ensures limitArg.Int? && limitArg.n != 0 ==> p.limit == limitArg.n
    ensures p.skip == (p.page - 1) * p.limit
    ensures p.page >= 1 && p.limit >= 1 ==> p.skip >= 0
  {
    var page := NumberOr(pageArg, 1);
    var limit := NumberOr(limitArg, 10);
    assert page == 1 <==> pageArg == NaN || pageArg == Int(0) || pageArg == Int(1);
    assert limit == 10 <==> limitArg == NaN || limitArg == Int(0) || limitArg == Int(10);
    ListingParams(page, limit, (page - 1) * limit)
  }

  datatype BookPage = BookPage(page: int, limit: int, totalPages: int, data: seq<Book>)

  /** `getAllBooks`. The database refuses a negative skip, which reaches the
      error handler; a negative limit returns at most its magnitude of books.
      Otherwise the page holds the matching books in newest-first order,
      starting after `skip` of them, and `totalPages` is the ceiling of the
      match count over the limit. */
  function GetAllBooks(books: seq<Book>, pageArg: JsNumber, limitArg: JsNumber,
                       author: Option<string>, genre: Option<string>): (r: Outcome<BookPage>)
    ensures r.Fail? <==> ListingParamsOf(pageArg, limitArg).skip < 0
    ensures r.Fail? ==> r.error == StoreRejected
    ensures r.Done? ==>
              var p := ListingParamsOf(pageArg, limitArg);
              var matching := MatchingBooks(books, author, genre);
              && r.value.page == p.page && r.value.limit == p.limit
              && r.value.totalPages == CeilDiv(|matching|, p.limit)
              && |r.value.data| <= Abs(p.limit)
              && NewestFirstOrdered(r.value.data, BookCreatedAt)
              && (forall b :: b in r.value.data ==> b in books && MatchesListing(b, author, genre))
  {
    var p := ListingParamsOf(pageArg, limitArg);
    var matching := MatchingBooks(books, author, genre);
    if p.skip < 0 then Fail(StoreRejected)
    else
      var sorted := NewestFirst(matching, BookCreatedAt);
      var data := Window(sorted, p.skip, Abs(p.limit));
      WindowOfNewestFirst(matching, p.skip, Abs(p.limit), BookCreatedAt);
      Done(BookPage(p.page, p.limit, CeilDiv(|matching|, p.limit), data))
  }

  /** The listing page for a positive limit is the `skip`-th window of the
      newest-first matching books. */
  lemma ListingPageIsWindow(books: seq<Book>, pageArg: JsNumber, limitArg: JsNumber,
                            author: Option<string>, genre: Option<string>)
    requires ListingParamsOf(pageArg, limitArg).page >= 1
    requires ListingParamsOf(pageArg, limitArg).limit >= 1
    ensures var p := ListingParamsOf(pageArg, limitArg);
            && p.skip == SkipOf(p.page, p.limit)
            && GetAllBooks(books, pageArg, limitArg, author, genre)
               == Done(BookPage(p.page, p.limit, CeilDiv(|MatchingBooks(books, author, genre)|, p.limit),
                                Window(NewestFirst(MatchingBooks(books, author, genre), BookCreatedAt),
                                       SkipOf(p.page, p.limit), p.limit)))
  {
    var p := ListingParamsOf(pageArg, limitArg);
    assert p.skip == SkipOf(p.page, p.limit);
    assert Abs(p.limit) == p.limit;
  }

  /** Whenever the listing is answered, it shows up to |limit| books of the
      newest-first matches after skipping `skip` of them. This covers a negative
      page with a negative limit too, whose `skip` is not negative. */
  lemma ListingDataIsSkipWindow(books: seq<Book>, pageArg: JsNumber, limitArg: JsNumber,
                                author: Option<string>, genre: Option<string>)
    requires ListingParamsOf(pageArg, limitArg).skip >= 0
    ensures var p := ListingParamsOf(pageArg, limitArg);
            var r := GetAllBooks(books, pageArg, limitArg, author, genre);
            && r.Done?
            && r.value.data == Window(NewestFirst(MatchingBooks(books, author, genre), BookCreatedAt),
                                      p.skip, Abs(p.limit))
  {
  }

  /** The books of listing pages 1 to `count`, read one after another. */
  function ListingPagesUpTo(books: seq<Book>, limitArg: JsNumber, author: Option<string>,
                            genre: Option<string>, count: nat): seq<Book>
  {
    if count == 0 then []
    else
      var r := GetAllBooks(books, Int(count), limitArg, author, genre);
      ListingPagesUpTo(books, limitArg, author, genre, count - 1) + (if r.Done? then r.value.data else [])
  }

  /** Listing page `p` is the `p`-th window of the newest-first matching books. */
  lemma ListingPageAt(books: seq<Book>, limitArg: JsNumber, author: Option<string>, genre: Option<string>, p: nat)
    requires ListingParamsOf(NaN, limitArg).limit >= 1 && p >= 1
    ensures var r := GetAllBooks(books, Int(p), limitArg, author, genre);
            var lim := ListingParamsOf(NaN, limitArg).limit;
            r.Done? && r.value.data == Window(NewestFirst(MatchingBooks(books, author, genre), BookCreatedAt), SkipOf(p, lim), lim)
  {
    assert ListingParamsOf(Int(p), limitArg).page == p;
    ListingPageIsWindow(books, Int(p), limitArg, author, genre);
  }

  /** Reading one more listing page appends that page's window. */
  lemma ListingPagesUpToStep(books: seq<Book>, limitArg: JsNumber, author: Option<string>, genre: Option<string>, count: nat)
    requires ListingParamsOf(NaN, limitArg).limit >= 1 && count >= 1
    ensures var lim := ListingParamsOf(NaN, limitArg).limit;
            ListingPagesUpTo(books, limitArg, author, genre, count)
            == ListingPagesUpTo(books, limitArg, author, genre, count - 1)
               + Window(NewestFirst(MatchingBooks(books, author, genre), BookCreatedAt), SkipOf(count, lim), lim)
  {
    ListingPageAt(books, limitArg, author, genre, count);
  }

  lemma ListingPagesUpToArePages(books: seq<Book>, limitArg: JsNumber, author: Option<string>,
                                                    genre: Option<string>, count: nat)
    requires ListingParamsOf(NaN, limitArg).limit >= 1
    ensures ListingPagesUpTo(books, limitArg, author, genre, count)
            == PagesUpTo(NewestFirst(MatchingBooks(books, author, genre), BookCreatedAt),
                         ListingParamsOf(NaN, limitArg).limit, count)
  {
    var sorted := NewestFirst(MatchingBooks(books, author, genre), BookCreatedAt);
    var lim := ListingParamsOf(NaN, limitArg).limit;
    var read := (c: nat) => ListingPagesUpTo(books, limitArg, author, genre, c);
    forall c: nat | 1 <= c <= count
      ensures read(c) == read(c - 1) + Window(sorted, SkipOf(c, lim), lim)
    {
      ListingPagesUpToStep(books, limitArg, author, genre, c);
    }
    PagesFromSteps(read, sorted, lim, count);
  }

  /** Reading listing pages 1 to `totalPages` with a positive limit returns
      every matching book exactly once, newest first, when no two matching books
      share a `createdAt`: the pages then agree with every newest-first order
      the database may choose, whatever order it picks on each request. */
  lemma ListingPagesCoverMatches(books: seq<Book>, limitArg: JsNumber, author: Option<string>, genre: Option<string>)
    requires ListingParamsOf(NaN, limitArg).limit >= 1
    requires DistinctKeys(MatchingBooks(books, author, genre), BookCreatedAt)
    ensures GetAllBooks(books, NaN, limitArg, author, genre).Done?
    ensures var total := GetAllBooks(books, NaN, limitArg, author, genre).value.totalPages;
            && total >= 0
            && multiset(ListingPagesUpTo(books, limitArg, author, genre, total))
               == multiset(MatchingBooks(books, author, genre))
            && NewestFirstOrdered(ListingPagesUpTo(books, limitArg, author, genre, total), BookCreatedAt)
            && forall order :: multiset(order) == multiset(MatchingBooks(books, author, genre))
                               && NewestFirstOrdered(order, BookCreatedAt)
                               ==> ListingPagesUpTo(books, limitArg, author, genre, total) == order
  {
    var matching := MatchingBooks(books, author, genre);
    var sorted := NewestFirst(matching, BookCreatedAt);
    AllPagesReassemble(sorted, ListingParamsOf(NaN, limitArg).limit);
    ListingPagesUpToArePages(books, limitArg, author, genre,
                             CeilDiv(|sorted|, ListingParamsOf(NaN, limitArg).limit));
    forall order | multiset(order) == multiset(matching) && NewestFirstOrdered(order, BookCreatedAt)
      ensures sorted == order
    {
      NewestFirstIsTheOnlyOrder(matching, order, BookCreatedAt);
    }
  }

  /** Filtering by author and genre together is filtering by author, then by genre. */
  lemma ListingFiltersConjoin(books: seq<Book>, author: Option<string>, genre: Option<string>)
    ensures MatchingBooks(books, author, genre) == MatchingBooks(MatchingBooks(books, author, None), None, genre)
  {
    FilterConjoin(books, b => MatchesListing(b, author, genre),
                  b => MatchesListing(b, author, None), b => MatchesListing(b, None, genre));
  }

  /** An absent filter and an empty one restrict nothing: without filters the
      listing selects every stored book. */
  lemma AbsentFiltersRestrictNothing(books: seq<Book>, author: Option<string>, genre: Option<string>)
    ensures MatchingBooks(books, None, None) == books
    ensures MatchingBooks(books, Some([]), genre) == MatchingBooks(books, None, genre)
    ensures MatchingBooks(books, author, Some([])) == MatchingBooks(books, author, None)
  {
    FilterKeepsAll(books, b => MatchesListing(b, None, None));
    FilterAgrees(books, b => MatchesListing(b, Some([]), genre), b => MatchesListing(b, None, genre));
    FilterAgrees(books, b => MatchesListing(b, author, Some([])), b => MatchesListing(b, author, None));
  }

  /** The genre filter "FANTASY" selects a book whose genre is "fantasy". */
  lemma GenreFilterIgnoresCase(b: Book)
    requires b.genre == "fantasy"
    ensures FieldFilter(b.genre, Some("FANTASY"))
  {
    assert Lower("FANTASY") == "fantasy";
    assert Lower(b.genre) == "fantasy";
    assert OccursAt("fantasy", "fantasy", 0);
  }

  // ---------------------------------------------------------------------------
  // getBookById

  /** One element of the review page: `select("userId rating comment createdAt")`,
      with the document id that the projection keeps. */
  datatype ReviewEntry = ReviewEntry(id: Id, userId: UserId, rating: Option<int>, comment: Option<string>, createdAt: int)

  datatype ReviewPage = ReviewPage(page: int, limit: int, totalPages: int, data: seq<ReviewEntry>)

  datatype BookDetail = BookDetail(book: Book, averageRating: real, totalReviews: nat, reviews: ReviewPage)

  function EntryOf(r: Review): ReviewEntry
  {
    ReviewEntry(r.id, r.userId, r.rating, r.comment, r.createdAt)
  }

  function EntryCreatedAt(e: ReviewEntry): int { e.createdAt }

  /** Projecting the reviews keeps their newest-first order. */
  lemma EntriesKeepOrder(rs: seq<Review>)
    requires NewestFirstOrdered(rs, ReviewCreatedAt)
    ensures NewestFirstOrdered(Entries(rs), EntryCreatedAt)
  {
  }

  function Entries(rs: seq<Review>): (es: seq<ReviewEntry>)
    ensures |es| == |rs|
    ensures forall i :: 0 <= i < |rs| ==> es[i] == EntryOf(rs[i])
  {
    seq(|rs|, i requires 0 <= i < |rs| => EntryOf(rs[i]))
  }

  lemma EntriesAppend(a: seq<Review>, b: seq<Review>)
    ensures Entries(a + b) == Entries(a) + Entries(b)
  {
  }

  /** The reviews `{ $match: { bookId } }` and `Review.find({ bookId })` select. */
  function ReviewsOf(reviews: seq<Review>, bookId: Id): (rs: seq<Review>)
    ensures forall r :: r in rs <==> r in reviews && r.bookId == bookId
  {
    Filter(reviews, (r: Review) => r.bookId == bookId)
  }

  /** The sum and the number of the ratings present; `$avg` skips reviews without one. */
  function RatingSum(rs: seq<Review>): int
  {
    if rs == [] then 0
    else (if rs[0].rating.Some? then rs[0].rating.value else 0) + RatingSum(rs[1..])
  }

  function RatedCount(rs: seq<Review>): (n: nat)
    ensures n <= |rs|
  {
    if rs == [] then 0 else (if rs[0].rating.Some? then 1 else 0) + RatedCount(rs[1..])
  }

  /** `aggResult[0]?.averageRating || 0`: the mean of the ratings present, and 0
      when there is none (no review at all, or none with a rating). */
  function AverageRating(rs: seq<Review>): (avg: real)
    ensures RatedCount(rs) == 0 ==> avg == 0.0
    ensures avg * (RatedCount(rs) as real) == RatingSum(rs) as real
  {
    if RatedCount(rs) == 0 then
      assert RatingSum(rs) == 0 by { NoRatingsSumToZero(rs); }
      0.0
    else RatingSum(rs) as real / RatedCount(rs) as real
  }

  lemma {:induction false} NoRatingsSumToZero(rs: seq<Review>)
    requires RatedCount(rs) == 0
    ensures RatingSum(rs) == 0
  {
    if rs != [] {
      NoRatingsSumToZero(rs[1..]);
    }
  }

  /** One page of a book's reviews: page and limit are at least 1 (defaults 1
      and 5), `totalPages` is the ceiling of the review count over the limit,
      and the page shows at most `limit` entries, newest first, starting after
      the reviews of the earlier pages. */
  function ReviewPageOf(mine: seq<Review>, pageArg: JsNumber, limitArg: JsNumber): (pg: ReviewPage)
    ensures pg.page == AtLeastOneOr(pageArg, 1) && pg.page >= 1
    ensures pg.limit == AtLeastOneOr(limitArg, 5) && pg.limit >= 1
    ensures pg.totalPages == CeilDiv(|mine|, pg.limit)
    ensures |pg.data| <= pg.limit
    ensures NewestFirstOrdered(pg.data, EntryCreatedAt)
    ensures pg.data == Entries(Window(NewestFirst(mine, ReviewCreatedAt), SkipOf(pg.page, pg.limit), pg.limit))
  {
    var page := AtLeastOneOr(pageArg, 1);
    var limit := AtLeastOneOr(limitArg, 5);
    var shown := Window(NewestFirst(mine, ReviewCreatedAt), SkipOf(page, limit), limit);
    WindowOfNewestFirst(mine, SkipOf(page, limit), limit, ReviewCreatedAt);
    EntriesKeepOrder(shown);
    ReviewPage(page, limit, CeilDiv(|mine|, limit), Entries(shown))
  }

  /** `getBookById`: a missing book is a 404 before any statistic is computed.
      Otherwise the count and the average cover every review of the book,
      whatever page is asked for, and the page is cut from those same reviews. */
  function GetBookById(books: seq<Book>, reviews: seq<Review>, id: Id,
                       pageArg: JsNumber, limitArg: JsNumber): (r: Outcome<BookDetail>)
    ensures r.Fail? <==> !HasBook(books, id)
    ensures r.Fail? ==> r.error == BookNotFound
    ensures r.Done? ==>
              var mine := ReviewsOf(reviews, id);
              && r.value.book in books && r.value.book.id == id
              && r.value.totalReviews == |mine|
              && r.value.averageRating == AverageRating(mine)
              && r.value.reviews == ReviewPageOf(mine, pageArg, limitArg)
  {
    var k := IndexOf(books, id, BookId);
    if k == |books| then Fail(BookNotFound)
    else
      var mine := ReviewsOf(reviews, id);
      Done(BookDetail(books[k], AverageRating(mine), |mine|, ReviewPageOf(mine, pageArg, limitArg)))
  }

  /** The statistics do not depend on the review page: two requests for the
      same book report the same count and average. */
  lemma StatsIgnoreReviewPage(books: seq<Book>, reviews: seq<Review>, id: Id,
                              page1: JsNumber, limit1: JsNumber, page2: JsNumber, limit2: JsNumber)
    requires HasBook(books, id)
    ensures var r1 := GetBookById(books, reviews, id, page1, limit1);
            var r2 := GetBookById(books, reviews, id, page2, limit2);
            && r1.Done? && r2.Done?
            && r1.value.totalReviews == r2.value.totalReviews
            && r1.value.averageRating == r2.value.averageRating
  {
  }

  /** A book without reviews reports 0 reviews, an average of 0 and 0 review pages. */
  lemma UnreviewedBookStats(books: seq<Book>, reviews: seq<Review>, id: Id, pageArg: JsNumber, limitArg: JsNumber)
    requires HasBook(books, id)
    requires forall i :: 0 <= i < |reviews| ==> reviews[i].bookId != id
    ensures var r := GetBookById(books, reviews, id, pageArg, limitArg);
            r.Done? && r.value.totalReviews == 0 && r.value.averageRating == 0.0
            && r.value.reviews.totalPages == 0 && r.value.reviews.data == []
  {
    var mine := ReviewsOf(reviews, id);
    FilterKeepsNone(reviews, (r: Review) => r.bookId == id);
    assert RatedCount(mine) == 0;
    var r := GetBookById(books, reviews, id, pageArg, limitArg);
    assert r.value.reviews == ReviewPageOf(mine, pageArg, limitArg);
  }

  /** When every review of the book carries a rating, the average is the sum of
      all ratings over the total review count. */
  lemma {:induction false} AllRatedAverage(rs: seq<Review>)
    requires forall i :: 0 <= i < |rs| ==> rs[i].rating.Some?
    ensures RatedCount(rs) == |rs|
    ensures |rs| > 0 ==> AverageRating(rs) == RatingSum(rs) as real / |rs| as real
  {
    if rs != [] {
      AllRatedAverage(rs[1..]);
    }
  }

  /** Reviews rated 3 and 5 average to 4. */
  lemma ThreeAndFiveAverageFour(a: Review, b: Review)
    requires a.rating == Some(3) && b.rating == Some(5)
    ensures AverageRating([a, b]) == 4.0
  {
    assert [a, b][1..] == [b];
    assert [b][1..] == [];
    assert RatedCount([b]) == 1 && RatingSum([b]) == 5;
    assert RatedCount([a, b]) == 2 && RatingSum([a, b]) == 8;
  }

  /** The review entries of pages 1 to `count`, read one after another. */
  function ReviewPagesUpTo(books: seq<Book>, reviews: seq<Review>, id: Id,
                           limitArg: JsNumber, count: nat): seq<ReviewEntry>
  {
    if count == 0 then []
    else
      var r := GetBookById(books, reviews, id, Int(count), limitArg);
      ReviewPagesUpTo(books, reviews, id, limitArg, count - 1) + (if r.Done? then r.value.reviews.data else [])
  }

  /** Review page `p` is the `p`-th window of the book's reviews, newest first. */
  lemma ReviewPageAt(books: seq<Book>, reviews: seq<Review>, id: Id, limitArg: JsNumber, p: nat)
    requires HasBook(books, id) && p >= 1
    ensures var r := GetBookById(books, reviews, id, Int(p), limitArg);
            var lim := AtLeastOneOr(limitArg, 5);
            r.Done? && r.value.reviews.data
                       == Entries(Window(NewestFirst(ReviewsOf(reviews, id), ReviewCreatedAt), SkipOf(p, lim), lim))
  {
    assert AtLeastOneOr(Int(p), 1) == p;
  }

  lemma {:induction false} ReviewPagesUpToArePages(books: seq<Book>, reviews: seq<Review>, id: Id,
                                                   limitArg: JsNumber, count: nat)
    requires HasBook(books, id)
    ensures ReviewPagesUpTo(books, reviews, id, limitArg, count)
            == Entries(PagesUpTo(NewestFirst(ReviewsOf(reviews, id), ReviewCreatedAt),
                                 AtLeastOneOr(limitArg, 5), count))
  {
    if count > 0 {
      var sorted := NewestFirst(ReviewsOf(reviews, id), ReviewCreatedAt);
      var lim := AtLeastOneOr(limitArg, 5);
      var before := PagesUpTo(sorted, lim, count - 1);
      var page := Window(sorted, SkipOf(count, lim), lim);
      var r := GetBookById(books, reviews, id, Int(count), limitArg);
      ReviewPageAt(books, reviews, id, limitArg, count);
      assert r.Done? && r.value.reviews.data == Entries(page);
      assert ReviewPagesUpTo(books, reviews, id, limitArg, count)
             == ReviewPagesUpTo(books, reviews, id, limitArg, count - 1) + Entries(page);
      ReviewPagesUpToArePages(books, reviews, id, limitArg, count - 1);
      assert PagesUpTo(sorted, lim, count) == before + page;
      EntriesAppend(before, page);
    }
  }

  /** Reading review pages 1 to `totalPages` returns an entry for every review
      of the book exactly once, newest first, when no two of its reviews share a
      `createdAt`: the pages then agree with every newest-first order the
      database may choose. */
  lemma ReviewPagesCoverReviews(books: seq<Book>, reviews: seq<Review>, id: Id, limitArg: JsNumber)
    requires HasBook(books, id)
    requires DistinctKeys(ReviewsOf(reviews, id), ReviewCreatedAt)
    ensures GetBookById(books, reviews, id, NaN, limitArg).Done?
    ensures var total := GetBookById(books, reviews, id, NaN, limitArg).value.reviews.totalPages;
            && total >= 0
            && |ReviewPagesUpTo(books, reviews, id, limitArg, total)| == |ReviewsOf(reviews, id)|
            && forall order :: multiset(order) == multiset(ReviewsOf(reviews, id))
                               && NewestFirstOrdered(order, ReviewCreatedAt)
                               ==> ReviewPagesUpTo(books, reviews, id, limitArg, total) == Entries(order)
  {
    var mine := ReviewsOf(reviews, id);
    var sorted := NewestFirst(mine, ReviewCreatedAt);
    var lim := AtLeastOneOr(limitArg, 5);
    AllPagesReassemble(sorted, lim);
    ReviewPagesUpToArePages(books, reviews, id, limitArg, CeilDiv(|sorted|, lim));
    forall order | multiset(order) == multiset(mine) && NewestFirstOrdered(order, ReviewCreatedAt)
      ensures sorted == order
    {
      NewestFirstIsTheOnlyOrder(mine, order, ReviewCreatedAt);
    }
  }

  /** A book just created by `addBook` (a fresh id appended to the store) is found by `getBookById`. */
  lemma AddedBookIsFound(books: seq<Book>, b: Book, reviews: seq<Review>, pageArg: JsNumber, limitArg: JsNumber)
    requires !HasBook(books, b.id)
    ensures var r := GetBookById(books + [b], reviews, b.id, pageArg, limitArg);
            r.Done? && r.value.book == b
  {
    assert (books + [b])[|books|].id == b.id;
    assert forall j :: 0 <= j < |books| ==> (books + [b])[j].id != b.id;
  }

  /** A book just created by `addBook` shows up in `getAllBooks` without filters:
      reading the pages 1 to `totalPages` with a positive limit meets it. */
  lemma AddedBookIsListed(books: seq<Book>, b: Book, limitArg: JsNumber)
    requires ListingParamsOf(NaN, limitArg).limit >= 1
    ensures var r := GetAllBooks(books + [b], NaN, limitArg, None, None);
            r.Done? && b in ListingPagesUpTo(books + [b], limitArg, None, None, r.value.totalPages)
  {
    var all := books + [b];
    var sorted := NewestFirst(MatchingBooks(all, None, None), BookCreatedAt);
    var lim := ListingParamsOf(NaN, limitArg).limit;
    AbsentFiltersRestrictNothing(all, None, None);
    AllPagesReassemble(sorted, lim);
    ListingPagesUpToArePages(all, limitArg, None, None, CeilDiv(|sorted|, lim));
    assert b in multiset(sorted);
  }

  // ---------------------------------------------------------------------------
  // searchBooks

  /** The search condition: the title or the author matches, ignoring case. */
  predicate SearchHit(b: Book, query: string): (hit: bool)
    ensures hit <==> (exists at :: OccursIgnoringCaseAt(query, b.title, at))
                     || (exists at :: OccursIgnoringCaseAt(query, b.author, at))
  {
    MatchesIgnoringCaseIff(b.title, query);
    MatchesIgnoringCaseIff(b.author, query);
    MatchesIgnoringCase(b.title, query) || MatchesIgnoringCase(b.author, query)
  }

  /** `searchBooks`: a missing query, or one that is blank once trimmed, is a
      400; otherwise the result is every stored book whose title or author
      matches, each once. The database returns them in an unspecified order;
      the model's order (stored order) is its own choice. */
  function SearchBooks(books: seq<Book>, query: Option<string>): (r: Outcome<seq<Book>>)
    ensures r.Fail? <==> query.None? || IsBlank(query.value)
    ensures r.Fail? ==> r.error == QueryRequired
    ensures r.Done? ==> forall b :: b in r.value <==> b in books && SearchHit(b, query.value)
    ensures r.Done? ==> multiset(r.value) <= multiset(books)
  {
    if query.None? then Fail(QueryRequired)
    else
      TrimIsEmptyIffBlank(query.value);
      if Trim(query.value) == [] then Fail(QueryRequired)
      else
        Done(Filter(books, b => SearchHit(b, query.value)))
  }

  /** A non-blank query written in any mix of case that occurs somewhere in a
      stored book's title is answered with that book among the results. */
  lemma SearchFindsTitleSubstring(books: seq<Book>, query: string, i: nat, at: nat)
    requires i < |books| && !IsBlank(query)
    requires OccursIgnoringCaseAt(query, books[i].title, at)
    ensures SearchBooks(books, Some(query)).Done?
    ensures books[i] in SearchBooks(books, Some(query)).value
  {
    assert SearchHit(books[i], query);
  }
}
