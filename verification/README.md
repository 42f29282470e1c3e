# Book review API — a verified Dafny model of the book controller

This project models the book controller of a small Express/MongoDB book review
service (`controllers/book.controller.js`). The controller has seven
request handlers:

- `addBook`, `addReview`, `updateReview` and `deleteReview` change the stored
  collections. They are modelled as methods of the class `BookStore.Store`,
  whose fields are the user set, the book table, the review table and a
  fresh-id counter. Each method checks its error conditions in the
  controller's order. A failure leaves the store unchanged; otherwise the
  method performs one insert, field overwrite or removal. Every method
  preserves the store invariant `Valid()`: ids are unique, every book has its
  four required strings, every review belongs to a stored book, and no user
  has reviewed the same book twice.
- `getAllBooks`, `getBookById` and `searchBooks` only read. They are pure
  functions in `BookQueries` over the book and review sequences and the
  query parameters.

The database is replaced by sequences:

- `find(query)` and `$match` select a subsequence (`Sequences.Filter`).
- `sort({ createdAt: -1 })` is a newest-first sort (`Sequences.NewestFirst`). It fixes one order among equal timestamps; with distinct timestamps that order is the only possible one (`Sequences.NewestFirstIsTheOnlyOrder`).
- `.skip(k).limit(n)` takes a window of the sorted sequence (`Paging.Window`).
- `findById` is a search by id (`Sequences.IndexOf`).

The query-string arithmetic follows JavaScript:

- `Number(v) || d` keeps negative values and gives the default for NaN or 0.
- `Math.max(1, parseInt(v)) || d` gives the default for NaN and raises any integer to at least 1.
- `Math.ceil(n / limit)` also covers a negative limit.

Modules:

| file | module | contents |
|---|---|---|
| text.dfy | `Text` | case-insensitive substring matching, ECMAScript `trim` |
| sequences.dfy | `Sequences` | filtering, newest-first ordering, lookup and removal by position |
| paging.dfy | `Paging` | page, limit and skip parameters, ceiling division, page windows, reading all pages |
| models.dfy | `Models` | book and review records, errors and their HTTP statuses, lookup predicates |
| store.dfy | `BookStore` | the `Store` class and its four state-changing handlers |
| queries.dfy | `BookQueries` | the three read-only handlers and their properties |

## Model

| member | source | states |
|---|---|---|
| Text.OccursAtLowerIff | controllers/book.controller.js:35 | the pattern sits at a position of the lower-cased field, lower-cased, exactly when it sits there in the original field up to the case of each letter |
| Text.MatchesIgnoringCaseIff | controllers/book.controller.js:33-39 | the `i` flag's partial match holds exactly when the pattern occurs somewhere in the field with the case of any of its letters changed |
| Text.OccursInIff | controllers/book.controller.js:212 | the recursive partial-match test holds exactly when the pattern occurs at some position of the field |
| Text.TrimStart | controllers/book.controller.js:208 | `trim` removes a leading run of ECMAScript whitespace only, and what remains does not start with whitespace |
| Text.TrimEnd | controllers/book.controller.js:208 | `trim` removes a trailing run of whitespace only, and what remains does not end with whitespace |
| Text.Trim | controllers/book.controller.js:208 | `trim()` returns a middle part of the query whose cut-off ends are all whitespace and which neither starts nor ends with whitespace |
| Text.TrimIsEmptyIffBlank | controllers/book.controller.js:208 | `query.trim() === ''` holds exactly when every character of the query is whitespace |
| Sequences.Filter | controllers/book.controller.js:43 | a query selects exactly the stored documents that satisfy it, no more of them than are stored, with no document repeated more often than it is stored |
| Sequences.FilterKeepsAll | controllers/book.controller.js:33 | an empty query object selects every document, in stored order |
| Sequences.FilterKeepsNone | controllers/book.controller.js:77 | a condition no document meets selects nothing |
| Sequences.FilterAgrees | controllers/book.controller.js:33-39 | two conditions that agree on every document select the same documents |
| Sequences.FilterConjoin | controllers/book.controller.js:33-39 | filtering by a conjunction equals filtering by one conjunct, then by the other |
| Sequences.NewestFirst | controllers/book.controller.js:46 | `sort({ createdAt: -1 })` gives a permutation of its input, ordered by non-increasing `createdAt` |
| Sequences.PermutationKeepsDistinctKeys | controllers/book.controller.js:46 | reordering documents keeps their timestamps pairwise distinct |
| Sequences.OrderedPermutationsAgree | controllers/book.controller.js:46 | two newest-first orders of the same documents with distinct timestamps are equal |
| Sequences.NewestFirstIsTheOnlyOrder | controllers/book.controller.js:92 | with distinct timestamps, every newest-first order the database may return is exactly the model's `NewestFirst` |
| Sequences.IndexOf | controllers/book.controller.js:70 | `findById` finds the first document with the id, and when it finds none, no document has that id |
| Sequences.RemoveAt | controllers/book.controller.js:195 | `deleteOne` removes exactly that one document; the others keep their order |
| Paging.NumberOr | controllers/book.controller.js:27-28 | the default replaces NaN and zero only; any other value, negative ones too, is kept |
| Paging.AtLeastOneOr | controllers/book.controller.js:65-66 | the default replaces NaN only; any integer becomes at least 1, and equals the input or 1 |
| Paging.CeilDiv | controllers/book.controller.js:51 | `Math.ceil(n / d)` is the least integer r with n <= r*d for d > 0, the matching bound for d < 0, and 0 for n = 0 |
| Paging.Window | controllers/book.controller.js:44-45 | `.skip(k).limit(n)` returns at most n documents, exactly the ones at positions k, k+1, … |
| Paging.WindowOfNewestFirst | controllers/book.controller.js:92-94 | a page of a newest-first sequence is newest first and holds only documents of that sequence |
| Paging.PagesUpToIsPrefix | controllers/book.controller.js:29 | pages 1..c of size n are exactly the first c*n documents: no overlap and no gap |
| Paging.AllPagesReassemble | controllers/book.controller.js:51 | pages 1..`totalPages` reassemble the whole sequence, and the page after the last is empty |
| Models.Stored | controllers/book.controller.js:131-136 | a body field is stored exactly when it was given a value; `undefined` and `null` store nothing |
| BookStore.Patched | controllers/book.controller.js:164-165 | a rating or comment the body leaves out keeps the stored one; an explicit `null` clears it; a value replaces it; the other fields never change |
| BookStore.RemovalKeepsReviewsValid | controllers/book.controller.js:195 | removing one review keeps review ids unique, keeps every review attached to a book, and keeps at most one review per reader and book |
| BookStore.Store.AddBook | controllers/book.controller.js:8-17 | an unknown user fails with wrong credentials, and then a missing field fails validation, both leaving the books unchanged; otherwise exactly one book with a fresh id and the given fields and timestamps is appended; the invariant is preserved |
| BookStore.Store.AddReview | controllers/book.controller.js:121-138 | a missing book is a 404 before the duplicate check; an existing review by the same user for that book is a 400; both leave the reviews unchanged; otherwise exactly one review with a fresh id is appended, storing the rating and comment that were given values; at most one review per reader and book is preserved |
| BookStore.Store.UpdateReview | controllers/book.controller.js:153-167 | a missing review is a 404 and another user's review is a 403, both with the reviews unchanged; otherwise only that review is replaced by its patched version and every other review is unchanged |
| BookStore.Store.DeleteReview | controllers/book.controller.js:185-195 | a missing review is a 404 and another user's review is a 403, both with the reviews unchanged; otherwise exactly that review is removed, the others stay in order, and no review with that id remains |
| BookQueries.FieldFilter | controllers/book.controller.js:34-39 | an absent or empty filter lets every book through; a non-empty one lets a book through exactly when the filter text occurs in the field ignoring case |
| BookQueries.MatchesListing | controllers/book.controller.js:33-39 | a listed book passes both filters, and when one filter is absent or empty only the other one decides |
| BookQueries.MatchingBooks | controllers/book.controller.js:33-43 | a book is counted and listed exactly when it is stored and passes both the author filter and the genre filter |
| BookQueries.ListingParamsOf | controllers/book.controller.js:27-29 | page is 1, and limit is 10, exactly when the argument is missing, non-numeric, zero or already that value; other values pass through; skip == (page-1)*limit |
| BookQueries.GetAllBooks | controllers/book.controller.js:27-53 | fails exactly when skip is negative, which the database refuses; otherwise reports page and limit, totalPages == ceil(matching/limit), at most \|limit\| books, newest first, each stored and matching the filters |
| BookQueries.ListingDataIsSkipWindow | controllers/book.controller.js:43-46 | whenever skip is not negative the listing is answered, and shows the window of \|limit\| newest-first matches after skip of them, for negative pages and limits too |
| BookQueries.ListingPageIsWindow | controllers/book.controller.js:43-46 | for positive page and limit, the listing is the window of the newest-first matching books that starts after (page-1)*limit of them |
| BookQueries.ListingPageAt | controllers/book.controller.js:43-46 | listing page p is the p-th window of the newest-first matching books |
| BookQueries.ListingPagesUpToStep | controllers/book.controller.js:43-46 | reading one more listing page appends that page's window |
| BookQueries.ListingPagesUpToArePages | controllers/book.controller.js:43-51 | listing pages 1..c, read in turn, are the first c pages of the newest-first matches |
| BookQueries.ListingPagesCoverMatches | controllers/book.controller.js:41-51 | when no two matching books share a `createdAt`, listing pages 1..`totalPages` together hold every matching book exactly once, newest first, and equal every newest-first order the database may choose |
| BookQueries.ListingFiltersConjoin | controllers/book.controller.js:33-39 | the author and genre filters combine with AND: applying both equals applying one after the other |
| BookQueries.AbsentFiltersRestrictNothing | controllers/book.controller.js:33-39 | an absent or empty filter restricts nothing; with neither filter every stored book matches |
| BookQueries.GenreFilterIgnoresCase | controllers/book.controller.js:37-38 | the genre filter "FANTASY" matches the genre "fantasy" |
| BookQueries.Entries | controllers/book.controller.js:95 | projecting reviews yields one entry per review, in the same order |
| BookQueries.EntriesKeepOrder | controllers/book.controller.js:92-95 | projecting newest-first reviews keeps them newest first |
| BookQueries.ReviewsOf | controllers/book.controller.js:77 | a review is in the book's review set exactly when it is stored and belongs to that book |
| BookQueries.AverageRating | controllers/book.controller.js:81-87 | the average is 0 when no review carries a rating; otherwise average × rated count == rating sum |
| BookQueries.ReviewPageOf | controllers/book.controller.js:65-67 | review page and limit are at least 1 (defaults 1 and 5); totalPages == ceil(reviews/limit); at most limit entries, newest first, starting after the earlier pages |
| BookQueries.GetBookById | controllers/book.controller.js:70-107 | fails with 404 exactly when no stored book has the id; otherwise returns that book, the count and average over all its reviews, and the requested review page |
| BookQueries.StatsIgnoreReviewPage | controllers/book.controller.js:76-88 | two requests for the same book with any page and limit report the same count and average |
| BookQueries.UnreviewedBookStats | controllers/book.controller.js:87-88 | a book without reviews reports 0 reviews, average 0, 0 review pages and an empty page |
| BookQueries.AllRatedAverage | controllers/book.controller.js:81 | when every review is rated, the average is the rating sum over the review count |
| BookQueries.ThreeAndFiveAverageFour | controllers/book.controller.js:81 | ratings 3 and 5 average to 4 |
| BookQueries.ReviewPageAt | controllers/book.controller.js:91-94 | review page p is the p-th window of the book's reviews, newest first |
| BookQueries.ReviewPagesUpToArePages | controllers/book.controller.js:91-105 | review pages 1..c, read in turn, are the first c pages of the book's newest-first reviews |
| BookQueries.ReviewPagesCoverReviews | controllers/book.controller.js:91-104 | when no two reviews of the book share a `createdAt`, review pages 1..`totalPages` hold one entry per review and equal the entries of every newest-first order the database may choose |
| BookQueries.AddedBookIsListed | controllers/book.controller.js:27-53 | a book appended to the store is met when the unfiltered listing is read from page 1 to totalPages with a positive limit |
| BookQueries.AddedBookIsFound | controllers/book.controller.js:70-73 | a book appended with a fresh id is then found by id |
| BookQueries.SearchBooks | controllers/book.controller.js:208-219 | fails with 400 exactly when the query is missing or blank after trimming; otherwise a book is returned exactly when it is stored and its title or author contains the query, ignoring case (`SearchHit`); no book comes back more often than it is stored |
| BookQueries.SearchFindsTitleSubstring | controllers/book.controller.js:212-219 | a non-blank query that occurs in a stored book's title, written in any mix of case, returns that book |
| BookQueries.SearchHit | controllers/book.controller.js:214-219 | a book is a hit exactly when the query occurs, up to the case of its letters, in the title or in the author |

## Left out

- Database execution (`countDocuments`, `find`, `aggregate`, `save`, `deleteOne`): replaced by the sequences above. The documents are single records without ObjectId casting. An id that is not a valid ObjectId (a cast error forwarded to the error handler) is not modelled.
- Regular-expression semantics: the author and genre filters and the search query are regular expressions in the source. They are modelled as case-insensitive partial matches of the literal text, with ASCII case folding. Metacharacters and invalid patterns are out of scope.
- Paging.NumberOr: the result of `Number(v)` is abstracted to NaN or an integer. Non-integer numbers and `Infinity` are not modelled.
- BookQueries.ListingParamsOf: page, limit and skip are exact integers in the model. The source computes them, and `(page - 1) * limit` in particular, as JavaScript doubles, which are exact only up to 2^53; beyond that the real skip is rounded. Skip and limit values too large for the database's 64-bit integers are not modelled either; the model answers every non-negative skip and limit.
- Paging.AtLeastOneOr: the result of `parseInt(v)` is abstracted to NaN or an integer. The parse of numeric-prefix strings is not modelled.
- BookQueries.GetAllBooks: a negative skip is modelled as a database failure, and a negative limit returns at most its magnitude. Both follow the MongoDB server's behaviour, which is outside the controller.
- BookQueries.AverageRating: uses exact real division. Floating-point averaging and `toFixed(2)` rounding are not modelled.
- Sequences.NewestFirst: the database leaves the order of documents with equal `createdAt` open, and may choose it differently on each request; the model fixes one order (later-stored first). `Sequences.NewestFirstIsTheOnlyOrder` shows the choice matters only when two timestamps are equal.
- BookQueries.ListingPagesUpToArePages: states the reading of listing pages for the model's one tie order. When two matching books share a `createdAt`, the real program may order them differently on different page requests and so repeat or skip a book across pages; the statement then describes only the model.
- BookQueries.ReviewPagesUpToArePages: states the reading of review pages for the model's one tie order. When two reviews of the book share a `createdAt`, the real program may repeat or skip a review across pages; the statement then describes only the model.
- BookQueries.AddedBookIsListed: states that the new book is met for the model's one tie order. When another book shares its `createdAt`, the real program may order the two differently on different page requests and so skip the new book; `BookQueries.ListingPagesCoverMatches` gives the guarantee that holds for every order when timestamps are distinct.
- BookQueries.ListingPagesCoverMatches: promises "every matching book exactly once" only when the matching books have distinct `createdAt`, the only case in which the source guarantees it.
- BookQueries.ReviewPagesCoverReviews: promises "every review exactly once" only when the book's reviews have distinct `createdAt`, the only case in which the source guarantees it.
- HTTP plumbing: response bodies, `next(err)` forwarding and the central error handler are reduced to the `Error` values. The comments on the `Error` constructors give the status the controller sends itself. Routing and application bootstrap are not part of this model; that includes the registration of `/:id` before `/search` and the doubled review-creation path.
- Query-string parameters (`page`, `limit`, `author`, `genre`, `query`) are modelled as single strings, an absent parameter as `None`. The query parser can also yield an array (a repeated key) or an object. Those values are not modelled, and neither is what follows from them: the `TypeError` that `searchBooks` forwards when it calls `trim` on a non-string, or a non-string `$regex` filter.
- Request validation middleware: its schemas belong to a validation library that is not part of this model.
- Authentication and the user and review models: the authenticated user is an abstract id. The difference between `req.user._id` in `addBook` and `req.user.id` elsewhere is not modelled. Neither is the string comparison of the owner id in `updateReview` and `deleteReview`; ids are compared as values.
- BookStore.Store.AddBook: a missing field in the request body is modelled as the empty string. Mongoose's `required` rejects both.
- Review timestamps other than `createdAt` are not modelled, because no handler reads them.
- Concurrency: two concurrent `addReview` requests can both pass the duplicate check. The model is sequential.
- The `console.log` in `getAllBooks` is not modelled.
- BookStore.Patched: a rating is an integer and a comment a string. A body field of another JSON type, a fractional rating for one, is not modelled, because the review schema is not part of this model.
