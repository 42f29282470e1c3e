/** The stored records, the errors the book controller produces, and the
    lookups it makes in the store. Database ids (ObjectIds) are modelled as
    integers; the authenticated user is an abstract id. */
module Models {

  type Id = int
  type UserId = int

  datatype Option<T> = None | Some(value: T)

  /** A book document: four required strings (models/book.model.js) and the
      `createdAt`/`updatedAt` timestamps that `{timestamps: true}` adds. */
  datatype Book = Book(
    id: Id,
    title: string,
    author: string,
    description: string,
    genre: string,
    createdAt: int,
    updatedAt: int)

  /** A review document. A rating or comment is absent (`None`) when the request
      left it out or sent JSON `null`; `$avg` skips both alike. */
  datatype Review = Review(
    id: Id,
    bookId: Id,
    userId: UserId,
    rating: Option<int>,
    comment: Option<string>,
    createdAt: int)

  datatype Error =
    | WrongCredentials   // the authenticated id names no user (forwarded to the error handler)
    | ValidationFailed   // a required book field is missing or empty (forwarded to the error handler)
    | BookNotFound       // 404
    | ReviewNotFound     // 404
    | AlreadyReviewed    // 400
    | NotOwner           // 403
    | QueryRequired      // 400
    | StoreRejected      // the database refused the query (forwarded to the error handler)

  /** A field of a JSON request body: left out (`undefined` in the handler),
      an explicit `null`, or a value. */
  datatype BodyValue<T> = Undefined | Null | Given(value: T)

  /** What a document keeps for a body field: the value, or nothing for
      `undefined` and `null`. */
  function Stored<T>(v: BodyValue<T>): (o: Option<T>)
    ensures o.Some? <==> v.Given?
    ensures v.Given? ==> o.value == v.value
  {
    if v.Given? then Some(v.value) else None
  }

  datatype Outcome<T> = Done(value: T) | Fail(error: Error)

  function BookCreatedAt(b: Book): int { b.createdAt }
  function BookId(b: Book): int { b.id }
  function ReviewCreatedAt(r: Review): int { r.createdAt }
  function ReviewId(r: Review): int { r.id }

  /** `Book.findById(id)` finds a document. */
  predicate HasBook(books: seq<Book>, id: Id)
  {
    exists i :: 0 <= i < |books| && books[i].id == id
  }

  /** `Review.findById(id)` finds a document. */
  predicate HasReview(reviews: seq<Review>, id: Id)
  {
    exists i :: 0 <= i < |reviews| && reviews[i].id == id
  }

  /** `Review.findOne({ bookId, userId })` finds a document. */
  predicate HasReviewBy(reviews: seq<Review>, bookId: Id, userId: UserId)
  {
    exists i :: 0 <= i < |reviews| && reviews[i].bookId == bookId && reviews[i].userId == userId
  }

  /** Mongoose's `required` rejects a missing or empty string; a missing field is written "". */
  predicate ContentPresent(title: string, author: string, description: string, genre: string)
  {
    title != [] && author != [] && description != [] && genre != []
  }

  predicate UniqueBookIds(books: seq<Book>)
  {
    forall i, j :: 0 <= i < j < |books| ==> books[i].id != books[j].id
  }

  predicate UniqueReviewIds(reviews: seq<Review>)
  {
    forall i, j :: 0 <= i < j < |reviews| ==> reviews[i].id != reviews[j].id
  }

  /** No user has two reviews of the same book. */
  predicate AtMostOneReviewPerReader(reviews: seq<Review>)
  {
    forall i, j :: 0 <= i < j < |reviews| ==>
      !(reviews[i].bookId == reviews[j].bookId && reviews[i].userId == reviews[j].userId)
  }
}
