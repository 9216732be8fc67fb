/**
 The review repository (models/review.go). Reading, changing and deleting
 are scoped to the calling user; listing a book's reviews joins each with
 its author's name, and the home page shows the newest reviews with their
 book's title.
 */
module Reviews {
  import opened Wrappers
  import Seqs
  import opened Schema

  /** A review of a book's page: the row and its author's username ("" when the author is gone). */
  datatype Review = Review(row: ReviewRow, username: string)

  /** A review on the home page: the selected columns and the book's title; timestamps are not selected. */
  datatype RecentReview = RecentReview(id: int, userId: int, bookId: int, rating: int, reviewText: string, bookTitle: string)

  /** The review `id` belongs to `userId`: the WHERE clause of Retrieve, Update and Delete. */
  predicate Owned(v: ReviewRow, id: int, userId: int) {
    v.id == id && v.userId == userId
  }

  predicate HasReview(db: Db, id: int, userId: int) {
    exists v :: v in db.reviews && Owned(v, id, userId)
  }

  /** Inserts the review, stamped with the clock, and returns its new id; the rating is not checked here. */
  function Create(db: Db, userId: int, bookId: int, rating: int, reviewText: string): (r: Tx<int>)
    ensures r.result == Ok(db.nextReviewId)
    ensures r.db.reviews == db.reviews + [ReviewRow(db.nextReviewId, userId, bookId, rating, reviewText, db.clock, db.clock)]
    ensures r.db == db.(reviews := r.db.reviews, nextReviewId := db.nextReviewId + 1, clock := db.clock + 1)
  {
    var id := db.nextReviewId;
    Tx(db.(reviews := db.reviews + [ReviewRow(id, userId, bookId, rating, reviewText, db.clock, db.clock)],
           nextReviewId := id + 1, clock := db.clock + 1),
       Ok(id))
  }

  /** The caller's review with the given id; NoRecord when the caller has no such review. */
  function Retrieve(db: Db, id: int, userId: int): (r: Result<ReviewRow>)
    ensures r.Ok? <==> HasReview(db, id, userId)
    ensures r.Ok? ==> r.value in db.reviews && Owned(r.value, id, userId)
    ensures r.Err? ==> r.error == NoRecord
  {
    match Seqs.Find(db.reviews, (v: ReviewRow) => Owned(v, id, userId))
    case None => Err(NoRecord)
    case Some(v) => Ok(v)
  }

  /** Replaces rating and text of the caller's review; NoRecord when no row matched. */
  function Update(db: Db, id: int, userId: int, rating: int, reviewText: string): (r: Tx<()>)
    ensures r.result.Ok? <==> HasReview(db, id, userId)
    ensures r.result.Err? ==> r == Tx(db, Err(NoRecord))
    ensures r.result.Ok? ==>
      && |r.db.reviews| == |db.reviews|
      && (forall i :: 0 <= i < |db.reviews| ==>
            r.db.reviews[i] == if Owned(db.reviews[i], id, userId)
                               then db.reviews[i].(rating := rating, reviewText := reviewText)
                               else db.reviews[i])
      && r.db == db.(reviews := r.db.reviews)
  {
    if !HasReview(db, id, userId) then Tx(db, Err(NoRecord))
    else
      var reviews := seq(|db.reviews|, i requires 0 <= i < |db.reviews| =>
        if Owned(db.reviews[i], id, userId) then db.reviews[i].(rating := rating, reviewText := reviewText) else db.reviews[i]);
      Tx(db.(reviews := reviews), Ok(()))
  }

  /** Deletes the caller's review; a delete that matched no row is an unclassified error. */
  function Delete(db: Db, id: int, userId: int): (r: Tx<()>)
    ensures r.result.Ok? <==> HasReview(db, id, userId)
    ensures r.result.Err? ==> r == Tx(db, Err(Other(NotFound)))
    ensures r.result.Ok? ==>
      && !HasReview(r.db, id, userId)
      && (forall v :: v in r.db.reviews <==> v in db.reviews && !Owned(v, id, userId))
      && r.db == db.(reviews := r.db.reviews)
  {
    if !HasReview(db, id, userId) then Tx(db, Err(Other(NotFound)))
    else Tx(db.(reviews := Seqs.Filter(db.reviews, (v: ReviewRow) => !Owned(v, id, userId))), Ok(()))
  }

  /**
   The author's username, or "" when no user has that id: the LEFT JOIN
   yields NULL, scanning it fails after every other column is filled, and
   the error is dropped.
   */
  function AuthorName(db: Db, userId: int): string {
    match Seqs.Find(db.users, (u: UserRow) => u.id == userId)
    case None => ""
    case Some(u) => u.username
  }

  /** Every review of the book, by any user, each with its author's name; SQL gives no order, the model keeps table order. */
  function List(db: Db, bookId: int): (r: seq<Review>)
    ensures forall x :: x in r ==> x.row in db.reviews && x.row.bookId == bookId && x.username == AuthorName(db, x.row.userId)
    ensures forall v :: v in db.reviews && v.bookId == bookId ==> Review(v, AuthorName(db, v.userId)) in r
  {
    var rows := Seqs.Filter(db.reviews, (v: ReviewRow) => v.bookId == bookId);
    var r := seq(|rows|, i requires 0 <= i < |rows| => Review(rows[i], AuthorName(db, rows[i].userId)));
    assert forall i :: 0 <= i < |r| ==> r[i].row in rows;
    assert forall v :: v in rows ==> Review(v, AuthorName(db, v.userId)) in r by {
      forall v | v in rows
        ensures Review(v, AuthorName(db, v.userId)) in r
      {
        var i :| 0 <= i < |rows| && rows[i] == v;
        assert r[i] == Review(v, AuthorName(db, v.userId));
      }
    }
    r
  }

  predicate WrittenBy(v: ReviewRow, userId: int) {
    v.userId == userId
  }

  /** How many reviews the user has written: never more than the table holds, and zero exactly when the user wrote none. */
  function Count(db: Db, userId: int): (r: nat)
    ensures r == |set i | 0 <= i < |db.reviews| && db.reviews[i].userId == userId|
    ensures r <= |db.reviews|
    ensures r == 0 <==> forall x :: x in db.reviews ==> !WrittenBy(x, userId)
  {
    var mine := Seqs.Filter(db.reviews, (v: ReviewRow) => WrittenBy(v, userId));
    Seqs.FilterCounts(db.reviews, (v: ReviewRow) => WrittenBy(v, userId));
    assert Seqs.Hits(db.reviews, (v: ReviewRow) => WrittenBy(v, userId)) == set i | 0 <= i < |db.reviews| && db.reviews[i].userId == userId;
    assert |mine| > 0 ==> mine[0] in mine;
    |mine|
  }

  /** Reviews newest first, keeping those whose book exists (the inner JOIN). */
  function NewestOnBooks(db: Db): (r: seq<ReviewRow>)
    ensures forall i :: 0 <= i < |r| ==> HasBook(db, r[i].bookId)
  {
    var r := Seqs.Filter(Seqs.Reverse(db.reviews), (v: ReviewRow) => HasBook(db, v.bookId));
    assert forall i :: 0 <= i < |r| ==> r[i] in r;
    r
  }

  function Summary(db: Db, v: ReviewRow): RecentReview
    requires HasBook(db, v.bookId)
  {
    RecentReview(v.id, v.userId, v.bookId, v.rating, v.reviewText, BookById(db, v.bookId).value.title)
  }

  /**
   The `limit` newest reviews (all of them when `limit` is negative) whose
   book still exists, each with the book's title.
   */
  function RetrieveRecentReviews(db: Db, limit: int): (r: seq<RecentReview>)
    ensures var k := |NewestOnBooks(db)|; |r| == if 0 <= limit < k then limit else k
    ensures forall i :: 0 <= i < |r| ==> r[i] == Summary(db, NewestOnBooks(db)[i])
  {
    var rows := Seqs.Limit(NewestOnBooks(db), limit);
    assert forall i :: 0 <= i < |rows| ==> rows[i] == NewestOnBooks(db)[i];
    seq(|rows|, i requires 0 <= i < |rows| => Summary(db, rows[i]))
  }

  /** Each recent review is a stored review of an existing book, shown with that book's title. */
  lemma RecentReviewsAreReviews(db: Db, limit: int, i: int)
    requires 0 <= i < |RetrieveRecentReviews(db, limit)|
    ensures var x := RetrieveRecentReviews(db, limit)[i];
      exists v, b :: v in db.reviews && b in db.books && b.id == v.bookId &&
        x == RecentReview(v.id, v.userId, v.bookId, v.rating, v.reviewText, b.title)
  {
    var v := NewestOnBooks(db)[i];
    assert v in Seqs.Reverse(db.reviews);
    var n := |db.reviews|;
    var k :| 0 <= k < n && Seqs.Reverse(db.reviews)[k] == v;
    assert db.reviews[n - 1 - k] == v;
    var b := BookById(db, v.bookId).value;
    assert v in db.reviews && b in db.books && b.id == v.bookId;
  }

  /** The database as one user sees it: only that user's reviews. */
  function OwnView(db: Db, userId: int): Db {
    db.(reviews := Seqs.Filter(db.reviews, (v: ReviewRow) => WrittenBy(v, userId)))
  }

  /** Another user's reviews cannot be seen, changed or deleted: every scoped operation answers as if they were absent. */
  lemma OthersReviewsInvisible(db: Db, id: int, userId: int, rating: int, text: string)
    ensures Retrieve(db, id, userId) == Retrieve(OwnView(db, userId), id, userId)
    ensures Update(db, id, userId, rating, text).result == Update(OwnView(db, userId), id, userId, rating, text).result
    ensures Delete(db, id, userId).result == Delete(OwnView(db, userId), id, userId).result
    ensures Count(db, userId) == Count(OwnView(db, userId), userId)
  {
    var keep := (v: ReviewRow) => WrittenBy(v, userId);
    Seqs.FindFilter(db.reviews, keep, (v: ReviewRow) => Owned(v, id, userId));
    Seqs.FilterAll(Seqs.Filter(db.reviews, keep), keep);
  }

  lemma CreatePreservesWf(db: Db, userId: int, bookId: int, rating: int, reviewText: string)
    requires Wf(db)
    ensures Wf(Create(db, userId, bookId, rating, reviewText).db)
  {
    var r := Create(db, userId, bookId, rating, reviewText);
    Seqs.PairwiseAppend(db.reviews, r.db.reviews[|db.reviews|], ReviewOrder);
  }

  /** A created review reads back, for its author, with what it was created with. */
  lemma CreateThenRetrieve(db: Db, userId: int, bookId: int, rating: int, reviewText: string)
    requires Wf(db)
    ensures var r := Create(db, userId, bookId, rating, reviewText);
      Retrieve(r.db, r.result.value, userId) == Ok(ReviewRow(r.result.value, userId, bookId, rating, reviewText, db.clock, db.clock))
  {
    var r := Create(db, userId, bookId, rating, reviewText);
    var row := r.db.reviews[|db.reviews|];
    Seqs.FindUnique(r.db.reviews, (v: ReviewRow) => Owned(v, r.result.value, userId), row);
  }

  /** Creating a review adds one to its author's count and leaves every other user's count alone. */
  lemma CountAfterCreate(db: Db, userId: int, bookId: int, rating: int, reviewText: string, who: int)
    ensures Count(Create(db, userId, bookId, rating, reviewText).db, who) == Count(db, who) + (if who == userId then 1 else 0)
  {
    var r := Create(db, userId, bookId, rating, reviewText);
    Seqs.FilterAppend(db.reviews, r.db.reviews[|db.reviews|], (v: ReviewRow) => WrittenBy(v, who));
  }

  lemma UpdatePreservesWf(db: Db, id: int, userId: int, rating: int, reviewText: string)
    requires Wf(db)
    ensures Wf(Update(db, id, userId, rating, reviewText).db)
  {
    var r := Update(db, id, userId, rating, reviewText);
    if r.result.Ok? {
      var vs := r.db.reviews;
      forall i, j | 0 <= i < j < |vs|
        ensures ReviewOrder(vs[i], vs[j])
      {
        assert ReviewOrder(db.reviews[i], db.reviews[j]);
      }
      forall v | v in vs
        ensures 1 <= v.id < r.db.nextReviewId && v.createdAt < r.db.clock
      {
        var i :| 0 <= i < |vs| && vs[i] == v;
        assert db.reviews[i] in db.reviews;
      }
    }
  }

  lemma DeletePreservesWf(db: Db, id: int, userId: int)
    requires Wf(db)
    ensures Wf(Delete(db, id, userId).db)
  {
    var r := Delete(db, id, userId);
    if r.result.Ok? {
      Seqs.FilterPairwise(db.reviews, (v: ReviewRow) => !Owned(v, id, userId), ReviewOrder);
    }
  }

  /** The author's name is the username of the user with that id, when there is one. */
  lemma AuthorNameOfUser(db: Db, u: UserRow)
    requires UsersWf(db) && u in db.users
    ensures AuthorName(db, u.id) == u.username
  {
    forall y | y in db.users && y.id == u.id
      ensures y == u
    {
      var i :| 0 <= i < |db.users| && db.users[i] == y;
      var j :| 0 <= j < |db.users| && db.users[j] == u;
    }
    Seqs.FindUnique(db.users, (x: UserRow) => x.id == u.id, u);
  }

  /** Newer reviews have larger ids: the reversed table runs from newest to oldest. */
  predicate Newer(a: ReviewRow, b: ReviewRow) {
    a.id > b.id && a.createdAt > b.createdAt
  }

  lemma NewestOnBooksOrdered(db: Db)
    requires ReviewsWf(db)
    ensures Seqs.Pairwise(NewestOnBooks(db), Newer)
  {
    var rev := Seqs.Reverse(db.reviews);
    var n := |db.reviews|;
    forall i, j | 0 <= i < j < |rev|
      ensures Newer(rev[i], rev[j])
    {
      assert ReviewOrder(db.reviews[n - 1 - j], db.reviews[n - 1 - i]);
    }
    Seqs.FilterPairwise(rev, (v: ReviewRow) => HasBook(db, v.bookId), Newer);
  }

  /** The recent reviews come newest first. */
  lemma RecentReviewsNewestFirst(db: Db, limit: int)
    requires Wf(db)
    ensures var r := RetrieveRecentReviews(db, limit);
      forall i, j :: 0 <= i < j < |r| ==> r[i].id > r[j].id
  {
    NewestOnBooksOrdered(db);
    var r := RetrieveRecentReviews(db, limit);
    forall i, j | 0 <= i < j < |r|
      ensures r[i].id > r[j].id
    {
      assert Newer(NewestOnBooks(db)[i], NewestOnBooks(db)[j]);
    }
  }

  /** A review at position p of the newest-first list is shown, or comes after every shown one. */
  lemma RecentReviewAt(db: Db, limit: int, i: int, p: int)
    requires ReviewsWf(db)
    requires 0 <= p < |NewestOnBooks(db)|
    requires 0 <= i < |RetrieveRecentReviews(db, limit)|
    ensures || Summary(db, NewestOnBooks(db)[p]) in RetrieveRecentReviews(db, limit)
            || NewestOnBooks(db)[p].id < RetrieveRecentReviews(db, limit)[i].id
  {
    var r := RetrieveRecentReviews(db, limit);
    var all := NewestOnBooks(db);
    if p < |r| {
      assert r[p] == Summary(db, all[p]);
    } else {
      NewestOnBooksOrdered(db);
      assert Newer(all[i], all[p]);
    }
  }

  /** Every review of an existing book is either among the recent ones or older than each of them. */
  lemma RecentReviewsBeatTheRest(db: Db, limit: int, v: ReviewRow, i: int)
    requires Wf(db)
    requires v in db.reviews && HasBook(db, v.bookId)
    requires 0 <= i < |RetrieveRecentReviews(db, limit)|
    ensures || Summary(db, v) in RetrieveRecentReviews(db, limit)
            || v.id < RetrieveRecentReviews(db, limit)[i].id
  {
    var all := NewestOnBooks(db);
    Seqs.ReverseHas(db.reviews, v);
    var p :| 0 <= p < |all| && all[p] == v;
    RecentReviewAt(db, limit, i, p);
  }
}
