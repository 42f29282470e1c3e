/** The handlers of the book controller that change the store: adding a book,
    and adding, updating and deleting a review. The users, books and reviews
    collections are fields of one `Store` object; each handler checks its
    preconditions in the controller's order and either fails with the store
    unchanged or performs its single insert, overwrite or removal. */
module BookStore {
  import opened Models
  import opened Sequences

  /** The review after an update request: a field the request leaves out
      (`undefined`) keeps the stored value; any other field, an explicit `null`
      included, replaces it; nothing else changes. */
  function Patched(review: Review, rating: BodyValue<int>, comment: BodyValue<string>): (p: Review)
    ensures p.id == review.id && p.bookId == review.bookId && p.userId == review.userId
    ensures p.createdAt == review.createdAt
    ensures rating.Undefined? ==> p.rating == review.rating
    ensures rating.Null? ==> p.rating.None?
    ensures rating.Given? ==> p.rating == Some(rating.value)
    ensures comment.Undefined? ==> p.comment == review.comment
    ensures comment.Null? ==> p.comment.None?
    ensures comment.Given? ==> p.comment == Some(comment.value)
  {
    review.(rating := if rating.Undefined? then review.rating else Stored(rating),
            comment := if comment.Undefined? then review.comment else Stored(comment))
  }

  /** The review table's part of the store invariant: unique ids below `nextId`,
      each review attached to a stored book, at most one review per reader and book. */
  predicate ReviewsValid(books: seq<Book>, reviews: seq<Review>, nextId: Id)
  {
    && UniqueReviewIds(reviews)
    && (forall i :: 0 <= i < |reviews| ==> reviews[i].id < nextId && HasBook(books, reviews[i].bookId))
    && AtMostOneReviewPerReader(reviews)
  }

  /** Removing one review keeps the review table valid. */
  lemma RemovalKeepsReviewsValid(books: seq<Book>, reviews: seq<Review>, nextId: Id, k: nat)
    requires ReviewsValid(books, reviews, nextId) && k < |reviews|
    ensures ReviewsValid(books, RemoveAt(reviews, k), nextId)
  {
    var r := RemoveAt(reviews, k);
    forall i, j | 0 <= i < j < |r|
      ensures r[i].id != r[j].id
      ensures !(r[i].bookId == r[j].bookId && r[i].userId == r[j].userId)
    {
      var i' := if i < k then i else i + 1;
      var j' := if j < k then j else j + 1;
      assert r[i] == reviews[i'] && r[j] == reviews[j'] && i' < j';
    }
  }

  /** Patching the rating or comment of one review keeps the review table valid. */
  lemma PatchKeepsReviewsValid(books: seq<Book>, reviews: seq<Review>, nextId: Id, k: nat,
                               rating: BodyValue<int>, comment: BodyValue<string>)
    requires ReviewsValid(books, reviews, nextId) && k < |reviews|
    ensures ReviewsValid(books, reviews[k := Patched(reviews[k], rating, comment)], nextId)
  {
  }

  class Store {
    var users: set<UserId>
    var books: seq<Book>
    var reviews: seq<Review>
    /** Every id handed out so far is below `nextId`. */
    var nextId: Id

    /** Ids are unique, every book has its four fields, every review belongs to
        a stored book, and no user has reviewed the same book twice. */
    ghost predicate Valid()
      reads this
    {
      && UniqueBookIds(books)
      && (forall i :: 0 <= i < |books| ==>
            books[i].id < nextId
            && ContentPresent(books[i].title, books[i].author, books[i].description, books[i].genre))
      && ReviewsValid(books, reviews, nextId)
    }

    /** An empty catalogue over the users that signed up. */
    constructor (users: set<UserId>)
      ensures Valid()
      ensures this.users == users && books == [] && reviews == []
    {
      this.users := users;
      books := [];
      reviews := [];
      nextId := 0;
    }

    /** `addBook`: the authenticated id must name a user, then the book is
        created; Mongoose's `required` refuses a missing or empty field. */
    method AddBook(userId: UserId, title: string, author: string, description: string, genre: string, now: int)
      returns (r: Outcome<Book>)
      requires Valid()
      modifies this`books, this`nextId
      ensures Valid()
      ensures userId !in users ==> r == Fail(WrongCredentials) && books == old(books)
      ensures userId in users && !ContentPresent(title, author, description, genre) ==>
                r == Fail(ValidationFailed) && books == old(books)
      ensures userId in users && ContentPresent(title, author, description, genre) ==>
                && r.Done?
                && books == old(books) + [r.value]
                && !HasBook(old(books), r.value.id)
                && r.value.title == title && r.value.author == author
                && r.value.description == description && r.value.genre == genre
                && r.value.createdAt == now && r.value.updatedAt == now
    {
      if userId !in users {
        return Fail(WrongCredentials);
      }
      if !ContentPresent(title, author, description, genre) {
        return Fail(ValidationFailed);
      }
      var book := Book(nextId, title, author, description, genre, now, now);
      ghost var before := books;
      books := books + [book];
      forall i | 0 <= i < |reviews|
        ensures HasBook(books, reviews[i].bookId)
      {
        var j :| 0 <= j < |before| && before[j].id == reviews[i].bookId;
        assert books[j] == before[j];
      }
      nextId := nextId + 1;
      r := Done(book);
    }

    /** `addReview`: the book must exist (404), then the user must not have
        reviewed it yet (400); only then is the review inserted. */
    method AddReview(bookId: Id, userId: UserId, rating: BodyValue<int>, comment: BodyValue<string>, now: int)
      returns (r: Outcome<Review>)
      requires Valid()
      modifies this`reviews, this`nextId
      ensures Valid()
      ensures !HasBook(books, bookId) ==> r == Fail(BookNotFound) && reviews == old(reviews)
      ensures HasBook(books, bookId) && HasReviewBy(old(reviews), bookId, userId) ==>
                r == Fail(AlreadyReviewed) && reviews == old(reviews)
      ensures HasBook(books, bookId) && !HasReviewBy(old(reviews), bookId, userId) ==>
                && r.Done?
                && reviews == old(reviews) + [r.value]
                && !HasReview(old(reviews), r.value.id)
                && r.value.bookId == bookId && r.value.userId == userId
                && r.value.rating == Stored(rating) && r.value.comment == Stored(comment)
                && r.value.createdAt == now
      ensures HasBook(books, bookId) ==> HasReviewBy(reviews, bookId, userId)
    {
      if !HasBook(books, bookId) {
        return Fail(BookNotFound);
      }
      if HasReviewBy(reviews, bookId, userId) {
        return Fail(AlreadyReviewed);
      }
      var review := Review(nextId, bookId, userId, Stored(rating), Stored(comment), now);
      reviews := reviews + [review];
      nextId := nextId + 1;
      r := Done(review);
      assert reviews[|reviews| - 1] == review;
    }

    /** `updateReview`: the review must exist (404) and belong to the caller
        (403); then the fields the request carries overwrite the stored ones
        and every other review stays as it was. */
    method UpdateReview(reviewId: Id, userId: UserId, rating: BodyValue<int>, comment: BodyValue<string>)
      returns (r: Outcome<Review>)
      requires Valid()
      modifies this`reviews
      ensures Valid()
      ensures !HasReview(old(reviews), reviewId) ==> r == Fail(ReviewNotFound) && reviews == old(reviews)
      ensures forall i :: 0 <= i < |old(reviews)| && old(reviews)[i].id == reviewId ==>
                if old(reviews)[i].userId != userId then
                  r == Fail(NotOwner) && reviews == old(reviews)
                else
                  r == Done(Patched(old(reviews)[i], rating, comment))
                  && reviews == old(reviews)[i := r.value]
    {
      var k := IndexOf(reviews, reviewId, ReviewId);
      if k == |reviews| {
        return Fail(ReviewNotFound);
      }
      var review := reviews[k];
      if review.userId != userId {
        return Fail(NotOwner);
      }
      var updated := Patched(review, rating, comment);
      PatchKeepsReviewsValid(books, reviews, nextId, k, rating, comment);
      reviews := reviews[k := updated];
      r := Done(updated);
    }

    /** `deleteReview`: the review must exist (404) and belong to the caller
        (403); then exactly that review is removed and the others keep their order. */
    method DeleteReview(reviewId: Id, userId: UserId) returns (r: Outcome<Review>)
      requires Valid()
      modifies this`reviews
      ensures Valid()
      ensures !HasReview(old(reviews), reviewId) ==> r == Fail(ReviewNotFound) && reviews == old(reviews)
      ensures forall i :: 0 <= i < |old(reviews)| && old(reviews)[i].id == reviewId ==>
                if old(reviews)[i].userId != userId then
                  r == Fail(NotOwner) && reviews == old(reviews)
                else
                  r == Done(old(reviews)[i]) && reviews == old(reviews)[..i] + old(reviews)[i + 1..]
      ensures r.Done? ==> !HasReview(reviews, reviewId)
      ensures r.Done? ==> multiset(reviews) + multiset{r.value} == multiset(old(reviews))
    {
      var k := IndexOf(reviews, reviewId, ReviewId);
      if k == |reviews| {
        return Fail(ReviewNotFound);
      }
      var review := reviews[k];
      if review.userId != userId {
        return Fail(NotOwner);
      }
      RemovalKeepsReviewsValid(books, reviews, nextId, k);
      reviews := RemoveAt(reviews, k);
      r := Done(review);
    }
  }

  /** A client of the store: a second review of the same book by the same
      user is refused, derived from the method contracts alone. */
  method SecondReviewRefused(reader: UserId, now: int)
  {
    var store := new Store({reader});
    var b := store.AddBook(reader, "Dune", "Frank Herbert", "Desert planet", "fantasy", now);
    assert b.Done? && store.books[0] == b.value;
    var first := store.AddReview(b.value.id, reader, Given(3), Given("good"), now);
    assert first.Done?;
    var again := store.AddReview(b.value.id, reader, Given(5), Undefined, now);
    assert again == Fail(AlreadyReviewed) && store.reviews == [first.value];
  }

  /** A client of the store: another user can neither edit nor delete a review,
      an update that carries only a comment keeps the rating, and an explicit
      `null` rating clears it. */
  method OnlyOwnerEdits(store: Store, id: Id, owner: UserId, other: UserId)
    requires store.Valid() && owner != other
    requires |store.reviews| == 1 && store.reviews[0].id == id && store.reviews[0].userId == owner
    modifies store
  {
    var old0 := store.reviews[0];
    var stolen := store.UpdateReview(id, other, Given(1), Undefined);
    assert stolen == Fail(NotOwner) && store.reviews == [old0];
    var removed := store.DeleteReview(id, other);
    assert removed == Fail(NotOwner) && store.reviews == [old0];
    var edited := store.UpdateReview(id, owner, Undefined, Given("great"));
    assert edited.Done? && edited.value.rating == old0.rating && edited.value.comment == Some("great");
    assert store.reviews == [edited.value];
    assert store.reviews[0].id == id;
    var cleared := store.UpdateReview(id, owner, Null, Undefined);
    assert cleared.Done? && cleared.value.rating == None && cleared.value.comment == Some("great");
    assert store.reviews == [cleared.value];
    assert store.reviews[0].id == id && store.reviews[0].userId == owner;
    var gone := store.DeleteReview(id, owner);
    assert gone.Done? && store.reviews == [];
  }
}
