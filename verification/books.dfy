/**
 The book repository (models/book.go): creating a book together with its
 user_books row in one transaction, reading, updating and deleting it,
 paging through all books newest first, the title/notes/reviews search, and
 the counts the home page shows.
 */
module Books {
  import opened Wrappers
  import Seqs
  import opened Schema
  import Like

  /**
   A book as the repository hands it out: the books row, plus the owner and
   status where the query joins user_books. A query that does not select
   them leaves Go's zero values, 0 and "".
   */
  datatype Book = Book(row: BookRow, userId: int, status: string)

  datatype PaginatedBooks = PaginatedBooks(
    books: seq<Book>, total: int, page: int, totalPages: int, pageSize: int)

  predicate IsbnTaken(db: Db, isbn: string) {
    exists b :: b in db.books && b.isbn == isbn
  }

  /** Some user_books row ties book `id` to user `userId`. */
  predicate Owns(db: Db, id: int, userId: int) {
    exists l :: l in db.userBooks && l.bookId == id && l.userId == userId
  }

  /**
   Inserts the book and its user_books row in one transaction and returns
   the new id. A taken isbn is reported as DuplicateIsbn; a status outside
   the CHECK list or an unknown user (foreign keys are on) fails the second
   insert, the transaction is rolled back and the insert's error is
   reported. This is the intended behaviour; `CreateAsWritten` is what
   book.go does on that path.
   */
  function Create(db: Db, title: string, author: string, isbn: string, status: string,
                  imageUrl: string, publicationYear: int, userId: int): (r: Tx<int>)
    ensures r.result.Err? ==> r.db == db
    ensures r.result == Err(DuplicateIsbn) <==> IsbnTaken(db, isbn)
    ensures r.result.Ok? <==> !IsbnTaken(db, isbn) && ParseStatus(status).Some? && HasUser(db, userId)
    ensures r.result.Err? && r.result.error != DuplicateIsbn ==> r.result.error == Other(ConstraintFailed)
    ensures r.result.Ok? ==>
      && r.result.value == db.nextBookId
      && r.db.books == db.books + [BookRow(r.result.value, title, author, isbn, publicationYear, imageUrl, db.clock, db.clock)]
      && r.db.userBooks == db.userBooks + [UserBookRow(userId, r.result.value, ParseStatus(status).value)]
      && r.db == db.(books := r.db.books, userBooks := r.db.userBooks, nextBookId := db.nextBookId + 1, clock := db.clock + 1)
  {
    if IsbnTaken(db, isbn) then Tx(db, Err(DuplicateIsbn))
    else if ParseStatus(status).None? || !HasUser(db, userId) then Tx(db, Err(Other(ConstraintFailed)))
    else
      var id := db.nextBookId;
      var row := BookRow(id, title, author, isbn, publicationYear, imageUrl, db.clock, db.clock);
      var db' := db.(books := db.books + [row],
                     userBooks := db.userBooks + [UserBookRow(userId, id, ParseStatus(status).value)],
                     nextBookId := id + 1, clock := db.clock + 1);
      Tx(db', Ok(id))
  }

  /**
   Create as book.go writes it: when the user_books insert fails, the
   rollback's nil error overwrites the insert's, so the call reports id 0
   and no error although nothing was written.
   */
  function CreateAsWritten(db: Db, title: string, author: string, isbn: string, status: string,
                           imageUrl: string, publicationYear: int, userId: int): (r: Tx<int>)
    ensures r.result.Err? <==> IsbnTaken(db, isbn)
    ensures r.result.Err? ==> r == Tx(db, Err(DuplicateIsbn))
    ensures !IsbnTaken(db, isbn) && (ParseStatus(status).None? || !HasUser(db, userId)) ==> r == Tx(db, Ok(0))
    ensures r.db != db <==> !IsbnTaken(db, isbn) && ParseStatus(status).Some? && HasUser(db, userId)
    ensures r.db != db ==> r == Create(db, title, author, isbn, status, imageUrl, publicationYear, userId)
  {
    if IsbnTaken(db, isbn) then Tx(db, Err(DuplicateIsbn))
    else if ParseStatus(status).None? || !HasUser(db, userId) then Tx(db, Ok(0))
    else Create(db, title, author, isbn, status, imageUrl, publicationYear, userId)
  }

  /**
   The two versions of Create differ exactly on the failed second insert:
   the intended one reports the constraint error, the written one reports
   success with id 0, and in a well-formed database no book has that id.
   */
  lemma CreateAsWrittenHidesFailure(db: Db, title: string, author: string, isbn: string, status: string,
                                    imageUrl: string, publicationYear: int, userId: int)
    requires Wf(db)
    ensures var r := Create(db, title, author, isbn, status, imageUrl, publicationYear, userId);
      var w := CreateAsWritten(db, title, author, isbn, status, imageUrl, publicationYear, userId);
      && (r.result == Err(Other(ConstraintFailed)) ==> w == Tx(db, Ok(0)) && Retrieve(w.db, 0) == Err(NoRecord))
      && (r.result != Err(Other(ConstraintFailed)) ==> w == r)
  {
  }

  /** A concrete case: on the empty database no user 1 exists, so book.go reports book 0 as created while nothing was stored. */
  lemma CreateAsWrittenExample()
    ensures Create(EmptyDb, "Dune", "Herbert", "9780441013593", "reading", "", 1965, 1).result == Err(Other(ConstraintFailed))
    ensures CreateAsWritten(EmptyDb, "Dune", "Herbert", "9780441013593", "reading", "", 1965, 1) == Tx(EmptyDb, Ok(0))
    ensures Retrieve(EmptyDb, 0) == Err(NoRecord)
  {
  }

  /**
   The book with the given id, joined with its user_books row. No such book
   is NoRecord; a book without a user_books row scans NULL into the owner
   and fails.
   */
  function Retrieve(db: Db, id: int): (r: Result<Book>)
    ensures r == Err(NoRecord) <==> !HasBook(db, id)
    ensures r == Err(Other(NullColumn)) <==> HasBook(db, id) && !HasUserBook(db, id)
    ensures r.Ok? ==> r.value.row in db.books && r.value.row.id == id
    ensures r.Ok? ==> exists l :: l in db.userBooks && l.bookId == id && r.value.userId == l.userId && r.value.status == StatusName(l.status)
  {
    match BookById(db, id)
    case None => Err(NoRecord)
    case Some(b) =>
      match UserBookOf(db, id)
      case None => Err(Other(NullColumn))
      case Some(l) => Ok(Book(b, l.userId, StatusName(l.status)))
  }

  /**
   Deletes the book if the user owns it; its user_books rows go with it
   (ON DELETE CASCADE). Not owning the book and a missing book are both
   unclassified errors, and nothing changes.
   */
  function Delete(db: Db, id: int, userId: int): (r: Tx<()>)
    ensures r.result.Err? ==> r.db == db
    ensures r.result == Err(Other(NotOwned)) <==> !Owns(db, id, userId)
    ensures r.result.Ok? <==> Owns(db, id, userId) && HasBook(db, id)
    ensures r.result.Err? ==> r.result.error in {Other(NotOwned), Other(NotFound)}
    ensures r.result.Ok? ==>
      && !HasBook(r.db, id) && !HasUserBook(r.db, id)
      && (forall b :: b in r.db.books <==> b in db.books && b.id != id)
      && (forall l :: l in r.db.userBooks <==> l in db.userBooks && l.bookId != id)
      && r.db == db.(books := r.db.books, userBooks := r.db.userBooks)
  {
    if !Owns(db, id, userId) then Tx(db, Err(Other(NotOwned)))
    else if !HasBook(db, id) then Tx(db, Err(Other(NotFound)))
    else
      Tx(db.(books := Seqs.Filter(db.books, (b: BookRow) => b.id != id),
             userBooks := Seqs.Filter(db.userBooks, (l: UserBookRow) => l.bookId != id)),
         Ok(()))
  }

  /** The row with its editable columns replaced; id and both timestamps stay. */
  function Edit(b: BookRow, title: string, author: string, isbn: string, imageUrl: string, publicationYear: int): BookRow {
    b.(title := title, author := author, isbn := isbn, publicationYear := publicationYear, imageUrl := imageUrl)
  }

  /**
   Rewrites the book's columns, then the status of its user_books row, in
   one transaction. In order: no book is NoRecord, an isbn another book holds
   is DuplicateIsbn, no user_books row is NoRecord, a status outside the
   CHECK list fails; every failure rolls back.
   */
  function Update(db: Db, id: int, title: string, author: string, isbn: string, status: string,
                  imageUrl: string, publicationYear: int): (r: Tx<()>)
    ensures r.result.Err? ==> r.db == db
    ensures !HasBook(db, id) ==> r.result == Err(NoRecord)
    ensures HasBook(db, id) ==>
      (r.result == Err(DuplicateIsbn) <==> exists b :: b in db.books && b.id != id && b.isbn == isbn)
    ensures HasBook(db, id) && (forall b :: b in db.books && b.id != id ==> b.isbn != isbn) ==>
      (r.result == Err(NoRecord) <==> !HasUserBook(db, id))
    ensures r.result == Err(NoRecord) ==> !HasBook(db, id) || !HasUserBook(db, id)
    ensures r.result.Ok? <==>
      && HasBook(db, id) && HasUserBook(db, id) && ParseStatus(status).Some?
      && forall b :: b in db.books && b.id != id ==> b.isbn != isbn
    ensures r.result.Ok? ==>
      && |r.db.books| == |db.books| && |r.db.userBooks| == |db.userBooks|
      && (forall i :: 0 <= i < |db.books| ==>
            r.db.books[i] == if db.books[i].id == id then Edit(db.books[i], title, author, isbn, imageUrl, publicationYear) else db.books[i])
      && (forall i :: 0 <= i < |db.userBooks| ==>
            r.db.userBooks[i] == if db.userBooks[i].bookId == id then db.userBooks[i].(status := ParseStatus(status).value) else db.userBooks[i])
      && r.db == db.(books := r.db.books, userBooks := r.db.userBooks)
  {
    if !HasBook(db, id) then Tx(db, Err(NoRecord))
    else if exists b :: b in db.books && b.id != id && b.isbn == isbn then Tx(db, Err(DuplicateIsbn))
    else if !HasUserBook(db, id) then Tx(db, Err(NoRecord))
    else if ParseStatus(status).None? then Tx(db, Err(Other(ConstraintFailed)))
    else
      var s := ParseStatus(status).value;
      var books := seq(|db.books|, i requires 0 <= i < |db.books| =>
        if db.books[i].id == id then Edit(db.books[i], title, author, isbn, imageUrl, publicationYear) else db.books[i]);
      var links := seq(|db.userBooks|, i requires 0 <= i < |db.userBooks| =>
        if db.userBooks[i].bookId == id then db.userBooks[i].(status := s) else db.userBooks[i]);
      Tx(db.(books := books, userBooks := links), Ok(()))
  }

  /** Number of pages of `pageSize` books that hold `total` books: the ceiling of the quotient. */
  function TotalPages(total: nat, pageSize: int): (n: nat)
    requires pageSize >= 1
    ensures total <= n * pageSize
    ensures n == 0 || (n - 1) * pageSize < total
  {
    var n := (total + pageSize - 1) / pageSize;
    assert n * pageSize + (total + pageSize - 1) % pageSize == total + pageSize - 1;
    n
  }

  /** How many of the newest books a page skips: those on earlier pages; SQLite reads a negative OFFSET as none. */
  function Skipped(page: int, pageSize: int): (n: nat)
    requires pageSize >= 1
    ensures page >= 1 ==> n == (page - 1) * pageSize
    ensures page < 1 ==> n == 0
  {
    if page <= 1 then 0 else (page - 1) * pageSize
  }

  /** How many books a page holds: a full page, the remainder on the last page, or none past the end. */
  function PageLength(total: nat, skipped: nat, pageSize: nat): nat {
    if skipped >= total then 0 else if total - skipped < pageSize then total - skipped else pageSize
  }

  /** The books of one page: `ORDER BY created_at DESC LIMIT pageSize OFFSET (page - 1) * pageSize`. */
  function Window(db: Db, page: int, pageSize: int): (w: seq<BookRow>)
    requires pageSize >= 1
    ensures |w| == PageLength(|db.books|, Skipped(page, pageSize), pageSize)
    ensures forall i :: 0 <= i < |w| ==> w[i] == db.books[|db.books| - 1 - (Skipped(page, pageSize) + i)]
  {
    var newest := Seqs.Reverse(db.books);
    var later := Seqs.Skip(newest, Skipped(page, pageSize));
    assert forall i :: 0 <= i < |later| ==> later[i] == db.books[|db.books| - 1 - (Skipped(page, pageSize) + i)];
    Seqs.Limit(later, pageSize)
  }

  /** The page List answers with: the requested one, or the last page when the request lies beyond it. */
  function ServedPage(page: int, totalPages: nat): (p: int)
    ensures p == page || p == totalPages
    ensures p <= page
    ensures page <= totalPages || totalPages == 0 ==> p == page
    ensures page >= 1 && totalPages > 0 ==> 1 <= p <= totalPages
  {
    if page > totalPages && totalPages > 0 then totalPages else page
  }

  /**
   The rows of a page joined with their owners (`LEFT JOIN user_books`):
   scanning fails on the first book without a user_books row, whose owner
   is NULL. The status column is not selected.
   */
  function JoinOwners(db: Db, rows: seq<BookRow>): (r: Option<seq<Book>>)
    ensures r.None? <==> exists i :: 0 <= i < |rows| && !HasUserBook(db, rows[i].id)
    ensures r.Some? ==> |r.value| == |rows|
    ensures r.Some? ==> forall i :: 0 <= i < |rows| ==>
      (r.value[i].row == rows[i] && r.value[i].status == "" &&
       exists l :: l in db.userBooks && l.bookId == rows[i].id && l.userId == r.value[i].userId)
  {
    if exists i :: 0 <= i < |rows| && UserBookOf(db, rows[i].id).None? then None
    else Some(seq(|rows|, i requires 0 <= i < |rows| => Book(rows[i], UserBookOf(db, rows[i].id).value.userId, "")))
  }

  /**
   One page of all books, newest first, each with its owner. A page past
   the last one is answered with the last page; the page count is the
   ceiling of total over page size.
   */
  function List(db: Db, page: int, pageSize: int): (r: Result<PaginatedBooks>)
    requires pageSize >= 1
    ensures r.Err? ==> r.error == Other(NullColumn)
    ensures r.Ok? ==>
      && r.value.total == |db.books| && r.value.pageSize == pageSize
      && r.value.totalPages == TotalPages(|db.books|, pageSize)
      && r.value.page == ServedPage(page, r.value.totalPages)
      && |r.value.books| == PageLength(|db.books|, Skipped(r.value.page, pageSize), pageSize)
    ensures r.Ok? ==> forall i :: 0 <= i < |r.value.books| ==>
      r.value.books[i].row == db.books[|db.books| - 1 - (Skipped(r.value.page, pageSize) + i)]
    ensures r.Ok? ==> forall i :: 0 <= i < |r.value.books| ==>
      (r.value.books[i].status == "" &&
       exists l :: l in db.userBooks && l.bookId == r.value.books[i].row.id && l.userId == r.value.books[i].userId)
  {
    var totalPages := TotalPages(|db.books|, pageSize);
    var served := ServedPage(page, totalPages);
    match JoinOwners(db, Window(db, served, pageSize))
    case None => Err(Other(NullColumn))
    case Some(books) => Ok(PaginatedBooks(books, |db.books|, served, totalPages, pageSize))
  }

  /** A book matches a search when its title, one of its notes or one of its reviews contains the term. */
  predicate Mentions(db: Db, b: BookRow, term: string) {
    || Like.Contains(b.title, term)
    || (exists n :: n in db.notes && n.bookId == b.id && Like.Contains(n.noteText, term))
    || (exists v :: v in db.reviews && v.bookId == b.id && Like.Contains(v.reviewText, term))
  }

  /**
   `SELECT DISTINCT` over books left-joined with notes and reviews: every
   book whose title, notes or reviews contain the term, ignoring ASCII case,
   without owner or status.
   */
  function Filter(db: Db, term: string): (r: seq<Book>)
    ensures forall x :: x in r ==> x.row in db.books && Mentions(db, x.row, term) && x.userId == 0 && x.status == ""
    ensures forall b :: b in db.books && Mentions(db, b, term) ==> Book(b, 0, "") in r
  {
    var hits := Seqs.Filter(db.books, (b: BookRow) => Mentions(db, b, term));
    var r := seq(|hits|, i requires 0 <= i < |hits| => Book(hits[i], 0, ""));
    assert forall i :: 0 <= i < |r| ==> r[i].row in hits;
    assert forall b :: b in hits ==> Book(b, 0, "") in r by {
      forall b | b in hits
        ensures Book(b, 0, "") in r
      {
        var i :| 0 <= i < |hits| && hits[i] == b;
        assert r[i] == Book(b, 0, "");
      }
    }
    r
  }

  /** `SELECT COUNT(*) FROM books`: zero exactly when there is no book. */
  function Count(db: Db): (r: nat)
    ensures r == 0 <==> forall b :: b !in db.books
  {
    assert |db.books| > 0 ==> db.books[0] in db.books;
    |db.books|
  }

  /** The `limit` newest books (every book when `limit` is negative), newest first, without owner or status. */
  function RetrieveRecentBooks(db: Db, limit: int): (r: seq<Book>)
    ensures |r| == if 0 <= limit < |db.books| then limit else |db.books|
    ensures forall i :: 0 <= i < |r| ==> r[i] == Book(db.books[|db.books| - 1 - i], 0, "")
  {
    var rows := Seqs.Limit(Seqs.Reverse(db.books), limit);
    seq(|rows|, i requires 0 <= i < |rows| => Book(rows[i], 0, ""))
  }

  predicate FinishedBy(l: UserBookRow, userId: int) {
    l.userId == userId && l.status == Finished
  }

  /** How many of the user's user_books rows say finished: never more than the table holds, and zero exactly when there is none. */
  function CountFinishedBooks(db: Db, userId: int): (r: nat)
    ensures r == |set i | 0 <= i < |db.userBooks| && db.userBooks[i].userId == userId && db.userBooks[i].status == Finished|
    ensures r <= |db.userBooks|
    ensures r == 0 <==> forall l :: l in db.userBooks ==> !FinishedBy(l, userId)
  {
    var finished := Seqs.Filter(db.userBooks, (l: UserBookRow) => FinishedBy(l, userId));
    Seqs.FilterCounts(db.userBooks, (l: UserBookRow) => FinishedBy(l, userId));
    assert Seqs.Hits(db.userBooks, (l: UserBookRow) => FinishedBy(l, userId))
      == set i | 0 <= i < |db.userBooks| && db.userBooks[i].userId == userId && db.userBooks[i].status == Finished;
    assert |finished| > 0 ==> finished[0] in finished;
    |finished|
  }

  /** Creating a book keeps every schema invariant: fresh id, later timestamp, unique isbn, one user_books row. */
  lemma CreatePreservesWf(db: Db, title: string, author: string, isbn: string, status: string,
                          imageUrl: string, publicationYear: int, userId: int)
    requires Wf(db)
    ensures Wf(Create(db, title, author, isbn, status, imageUrl, publicationYear, userId).db)
  {
    var r := Create(db, title, author, isbn, status, imageUrl, publicationYear, userId);
    if r.result.Ok? {
      var db' := r.db;
      var row := db'.books[|db.books|];
      var link := db'.userBooks[|db.userBooks|];
      Seqs.PairwiseAppend(db.books, row, BookOrder);
      assert forall b :: b in db'.books ==> b in db.books || b == row;
      forall l | l in db.userBooks
        ensures UserBookOrder(l, link)
      {
        var b :| b in db.books && b.id == l.bookId;
      }
      Seqs.PairwiseAppend(db.userBooks, link, UserBookOrder);
      forall l | l in db'.userBooks
        ensures HasUser(db', l.userId) && HasBook(db', l.bookId)
      {
        if l != link {
          var b :| b in db.books && b.id == l.bookId;
          assert b in db'.books;
        } else {
          assert row in db'.books;
        }
      }
      forall b | b in db'.books
        ensures HasUserBook(db', b.id)
      {
        if b != row {
          var l :| l in db.userBooks && l.bookId == b.id;
          assert l in db'.userBooks;
        } else {
          assert link in db'.userBooks;
        }
      }
    }
  }

  /** In a well-formed database a book reads back with its one owner and that owner's status. */
  lemma RetrieveOwned(db: Db, b: BookRow, l: UserBookRow)
    requires Wf(db)
    requires b in db.books && l in db.userBooks && l.bookId == b.id
    ensures Retrieve(db, b.id) == Ok(Book(b, l.userId, StatusName(l.status)))
  {
    forall y | y in db.books && y.id == b.id
      ensures y == b
    {
      BookIdUnique(db, y, b);
    }
    Seqs.FindUnique(db.books, (x: BookRow) => x.id == b.id, b);
    forall y | y in db.userBooks && y.bookId == b.id
      ensures y == l
    {
      UserBookUnique(db, y, l);
    }
    Seqs.FindUnique(db.userBooks, (x: UserBookRow) => x.bookId == b.id, l);
  }

  /** A created book reads back with exactly the values it was created with, owned by its creator. */
  lemma CreateThenRetrieve(db: Db, title: string, author: string, isbn: string, status: string,
                           imageUrl: string, publicationYear: int, userId: int)
    requires Wf(db)
    ensures var r := Create(db, title, author, isbn, status, imageUrl, publicationYear, userId);
      r.result.Ok? ==>
        Retrieve(r.db, r.result.value)
          == Ok(Book(BookRow(r.result.value, title, author, isbn, publicationYear, imageUrl, db.clock, db.clock), userId, status))
  {
    var r := Create(db, title, author, isbn, status, imageUrl, publicationYear, userId);
    if r.result.Ok? {
      CreatePreservesWf(db, title, author, isbn, status, imageUrl, publicationYear, userId);
      RetrieveOwned(r.db, r.db.books[|db.books|], r.db.userBooks[|db.userBooks|]);
    }
  }

  /** Deleting keeps the invariants: the book and its user_books row leave together. */
  lemma DeletePreservesWf(db: Db, id: int, userId: int)
    requires Wf(db)
    ensures Wf(Delete(db, id, userId).db)
  {
    var r := Delete(db, id, userId);
    if r.result.Ok? {
      Seqs.FilterPairwise(db.books, (b: BookRow) => b.id != id, BookOrder);
      Seqs.FilterPairwise(db.userBooks, (l: UserBookRow) => l.bookId != id, UserBookOrder);
      forall l | l in r.db.userBooks
        ensures HasBook(r.db, l.bookId)
      {
        var b :| b in db.books && b.id == l.bookId;
        assert b in r.db.books;
      }
      forall b | b in r.db.books
        ensures HasUserBook(r.db, b.id)
      {
        var l :| l in db.userBooks && l.bookId == b.id;
        assert l in r.db.userBooks;
      }
    }
  }

  /** A successful delete removes exactly one book, so the count drops by one. */
  lemma DeleteRemovesOne(db: Db, id: int, userId: int)
    requires Wf(db)
    ensures Delete(db, id, userId).result.Ok? ==> Count(Delete(db, id, userId).db) == Count(db) - 1
  {
    if Delete(db, id, userId).result.Ok? {
      var k :| 0 <= k < |db.books| && db.books[k].id == id;
      forall i | 0 <= i < |db.books| && i != k
        ensures db.books[i].id != id
      {
        if i < k {
          assert BookOrder(db.books[i], db.books[k]);
        } else {
          assert BookOrder(db.books[k], db.books[i]);
        }
      }
      Seqs.FilterDropsOne(db.books, (b: BookRow) => b.id != id, k);
    }
  }

  /** Rewriting the editable columns of book `id` keeps ids, timestamps and, with the isbn free, isbns apart. */
  lemma EditKeepsBookOrder(db: Db, db': Db, id: int, title: string, author: string, isbn: string,
                           imageUrl: string, publicationYear: int)
    requires BooksWf(db)
    requires forall b :: b in db.books && b.id != id ==> b.isbn != isbn
    requires |db'.books| == |db.books| && db'.nextBookId == db.nextBookId && db'.clock == db.clock
    requires forall i :: 0 <= i < |db.books| ==>
      db'.books[i] == if db.books[i].id == id then Edit(db.books[i], title, author, isbn, imageUrl, publicationYear) else db.books[i]
    ensures BooksWf(db')
    ensures forall i :: 0 <= i < |db.books| ==> db'.books[i].id == db.books[i].id
  {
    var bs := db'.books;
    forall i, j | 0 <= i < j < |bs|
      ensures BookOrder(bs[i], bs[j])
    {
      assert BookOrder(db.books[i], db.books[j]);
      assert db.books[i] in db.books && db.books[j] in db.books;
    }
    forall b | b in bs
      ensures 1 <= b.id < db'.nextBookId && b.createdAt < db'.clock
    {
      var i :| 0 <= i < |bs| && bs[i] == b;
      assert db.books[i] in db.books;
    }
  }

  /** The user_books table after the status update: the same rows, with the book's status replaced. */
  predicate StatusUpdated(db: Db, db': Db, id: int, st: Status) {
    && |db'.userBooks| == |db.userBooks|
    && forall i :: 0 <= i < |db.userBooks| ==>
      db'.userBooks[i] == if db.userBooks[i].bookId == id then db.userBooks[i].(status := st) else db.userBooks[i]
  }

  /** The books table after the edit keeps every id in place. */
  predicate IdsKept(db: Db, db': Db) {
    |db'.books| == |db.books| && forall i :: 0 <= i < |db.books| ==> db'.books[i].id == db.books[i].id
  }

  lemma StatusKeepsOneRowPerBook(db: Db, db': Db, id: int, st: Status)
    requires Seqs.Pairwise(db.userBooks, UserBookOrder) && StatusUpdated(db, db', id, st)
    ensures Seqs.Pairwise(db'.userBooks, UserBookOrder)
  {
    var ls := db'.userBooks;
    forall i, j | 0 <= i < j < |ls|
      ensures UserBookOrder(ls[i], ls[j])
    {
      assert UserBookOrder(db.userBooks[i], db.userBooks[j]);
    }
  }

  lemma StatusKeepsForeignKeys(db: Db, db': Db, id: int, st: Status)
    requires forall l :: l in db.userBooks ==> HasUser(db, l.userId) && HasBook(db, l.bookId)
    requires db'.users == db.users && IdsKept(db, db') && StatusUpdated(db, db', id, st)
    ensures forall l :: l in db'.userBooks ==> HasUser(db', l.userId) && HasBook(db', l.bookId)
  {
    forall l | l in db'.userBooks
      ensures HasUser(db', l.userId) && HasBook(db', l.bookId)
    {
      var i :| 0 <= i < |db'.userBooks| && db'.userBooks[i] == l;
      assert db.userBooks[i] in db.userBooks;
      var b :| b in db.books && b.id == l.bookId;
      var k :| 0 <= k < |db.books| && db.books[k] == b;
      assert db'.books[k] in db'.books;
    }
  }

  lemma StatusKeepsRowForEveryBook(db: Db, db': Db, id: int, st: Status)
    requires forall b :: b in db.books ==> HasUserBook(db, b.id)
    requires IdsKept(db, db') && StatusUpdated(db, db', id, st)
    ensures forall b :: b in db'.books ==> HasUserBook(db', b.id)
  {
    forall b | b in db'.books
      ensures HasUserBook(db', b.id)
    {
      var k :| 0 <= k < |db'.books| && db'.books[k] == b;
      assert db.books[k] in db.books;
      var l :| l in db.userBooks && l.bookId == b.id;
      var i :| 0 <= i < |db.userBooks| && db.userBooks[i] == l;
      assert db'.userBooks[i] in db'.userBooks;
    }
  }

  /** Updating keeps the invariants: ids and timestamps stay, and the isbn check keeps isbns unique. */
  lemma UpdatePreservesWf(db: Db, id: int, title: string, author: string, isbn: string, status: string,
                          imageUrl: string, publicationYear: int)
    requires Wf(db)
    ensures Wf(Update(db, id, title, author, isbn, status, imageUrl, publicationYear).db)
  {
    var r := Update(db, id, title, author, isbn, status, imageUrl, publicationYear);
    if r.result.Ok? {
      EditKeepsBookOrder(db, r.db, id, title, author, isbn, imageUrl, publicationYear);
      var st := ParseStatus(status).value;
      StatusKeepsOneRowPerBook(db, r.db, id, st);
      StatusKeepsForeignKeys(db, r.db, id, st);
      StatusKeepsRowForEveryBook(db, r.db, id, st);
    }
  }

  /** In a well-formed database every book has its owner, so listing never fails. */
  lemma ListSucceeds(db: Db, page: int, pageSize: int)
    requires Wf(db) && pageSize >= 1
    ensures List(db, page, pageSize).Ok?
  {
    var served := ServedPage(page, TotalPages(|db.books|, pageSize));
    var w := Window(db, served, pageSize);
    forall i | 0 <= i < |w|
      ensures HasUserBook(db, w[i].id)
    {
      assert w[i] in db.books;
    }
  }

  lemma MulMonotone(a: int, b: int, c: int)
    requires 0 <= a <= b && c >= 0
    ensures a * c <= b * c
  {
  }

  /** Position k falls on page k / pageSize + 1, which exists when k is below the total, at offset k % pageSize. */
  lemma PageOfPosition(total: nat, pageSize: int, k: int)
    requires pageSize >= 1 && 0 <= k < total
    ensures Skipped(k / pageSize + 1, pageSize) + k % pageSize == k
    ensures k % pageSize < PageLength(total, Skipped(k / pageSize + 1, pageSize), pageSize)
    ensures ServedPage(k / pageSize + 1, TotalPages(total, pageSize)) == k / pageSize + 1
  {
    var q := k / pageSize;
    var n := TotalPages(total, pageSize);
    assert q * pageSize + k % pageSize == k;
    assert Skipped(q + 1, pageSize) == q * pageSize;
    if q >= n {
      MulMonotone(n, q, pageSize);
      assert false;
    }
    assert q + 1 <= n;
  }

  /** The page holding position k shows the k-th newest book at position k % pageSize. */
  lemma WindowPlaces(db: Db, pageSize: int, k: int)
    requires pageSize >= 1 && 0 <= k < |db.books|
    ensures var w := Window(db, k / pageSize + 1, pageSize);
      k % pageSize < |w| && w[k % pageSize] == db.books[|db.books| - 1 - k]
  {
    PageOfPosition(|db.books|, pageSize, k);
    var page, m := k / pageSize + 1, k % pageSize;
    var w := Window(db, page, pageSize);
    assert w[m] == db.books[|db.books| - 1 - (Skipped(page, pageSize) + m)];
  }

  /**
   The k-th newest book (counting from 0) is on page k / pageSize + 1, at
   position k % pageSize: the pages partition the books without gaps or
   overlaps.
   */
  lemma ListPlacesEveryBook(db: Db, pageSize: int, k: int)
    requires Wf(db) && pageSize >= 1
    requires 0 <= k < |db.books|
    ensures var r := List(db, k / pageSize + 1, pageSize);
      && r.Ok? && r.value.page == k / pageSize + 1
      && k % pageSize < |r.value.books|
      && r.value.books[k % pageSize].row == db.books[|db.books| - 1 - k]
  {
    ListSucceeds(db, k / pageSize + 1, pageSize);
    PageOfPosition(|db.books|, pageSize, k);
    WindowPlaces(db, pageSize, k);
  }

  /** Ten books in pages of eight: asking for page 5 yields page 2 of 2, holding the two oldest books. */
  lemma ListPastTheEnd(db: Db)
    requires Wf(db) && |db.books| == 10
    ensures var r := List(db, 5, 8);
      && r.Ok? && r.value.page == 2 && r.value.totalPages == 2 && r.value.total == 10
      && |r.value.books| == 2
      && r.value.books[0].row == db.books[1] && r.value.books[1].row == db.books[0]
  {
    ListSucceeds(db, 5, 8);
  }

  /** Whatever page from 1 up is asked for, a non-empty table answers with a non-empty page: a page past the end shows the last one. */
  lemma ListPageNotEmpty(db: Db, page: int, pageSize: int)
    requires Wf(db) && pageSize >= 1 && page >= 1 && |db.books| > 0
    ensures List(db, page, pageSize).Ok?
    ensures |List(db, page, pageSize).value.books| > 0
  {
    ListSucceeds(db, page, pageSize);
    var t := TotalPages(|db.books|, pageSize);
    var p := ServedPage(page, t);
    MulMonotone(p - 1, t - 1, pageSize);
    assert Skipped(p, pageSize) < |db.books|;
  }

  /** `DISTINCT` holds: in a well-formed database the search returns each book once, in id order. */
  lemma FilterDistinct(db: Db, term: string)
    requires Wf(db)
    ensures var r := Filter(db, term);
      forall i, j :: 0 <= i < j < |r| ==> r[i].row.id < r[j].row.id
  {
    Seqs.FilterPairwise(db.books, (b: BookRow) => Mentions(db, b, term), BookOrder);
  }

  /** The recent books come newest first. */
  lemma RecentBooksNewestFirst(db: Db, limit: int)
    requires Wf(db)
    ensures var r := RetrieveRecentBooks(db, limit);
      forall i, j :: 0 <= i < j < |r| ==> r[i].row.createdAt > r[j].row.createdAt
  {
    var r := RetrieveRecentBooks(db, limit);
    var n := |db.books|;
    forall i, j | 0 <= i < j < |r|
      ensures r[i].row.createdAt > r[j].row.createdAt
    {
      assert BookOrder(db.books[n - 1 - j], db.books[n - 1 - i]);
    }
  }

  /** A book among the newest `limit` is listed by RetrieveRecentBooks. */
  lemma RecentBookListed(db: Db, limit: int, k: int)
    requires 0 <= k < |db.books|
    requires |db.books| - 1 - k < |RetrieveRecentBooks(db, limit)|
    ensures Book(db.books[k], 0, "") in RetrieveRecentBooks(db, limit)
  {
    var r := RetrieveRecentBooks(db, limit);
    assert r[|db.books| - 1 - k] == Book(db.books[k], 0, "");
  }

  /** A book older than the newest `limit` was created before each listed one. */
  lemma UnlistedBookOlder(db: Db, limit: int, i: int, k: int)
    requires Seqs.Pairwise(db.books, BookOrder)
    requires 0 <= k && 0 <= i < |RetrieveRecentBooks(db, limit)| <= |db.books| - 1 - k
    ensures db.books[k].createdAt < RetrieveRecentBooks(db, limit)[i].row.createdAt
  {
    var r := RetrieveRecentBooks(db, limit);
    var n := |db.books|;
    assert r[i] == Book(db.books[n - 1 - i], 0, "");
    assert BookOrder(db.books[k], db.books[n - 1 - i]);
  }

  /** Every book is either among the recent ones or older than each of them. */
  lemma RecentBooksBeatTheRest(db: Db, limit: int, i: int, k: int)
    requires Seqs.Pairwise(db.books, BookOrder)
    requires 0 <= k < |db.books|
    requires 0 <= i < |RetrieveRecentBooks(db, limit)|
    ensures || Book(db.books[k], 0, "") in RetrieveRecentBooks(db, limit)
            || db.books[k].createdAt < RetrieveRecentBooks(db, limit)[i].row.createdAt
  {
    if |db.books| - 1 - k < |RetrieveRecentBooks(db, limit)| {
      RecentBookListed(db, limit, k);
    } else {
      UnlistedBookOlder(db, limit, i, k);
    }
  }

  /**
   Under the code as written, only a call that changed the database has
   created a book: then it reads back as created and the count grows by one.
   */
  lemma CreateAsWrittenThenRetrieve(db: Db, title: string, author: string, isbn: string, status: string,
                                    imageUrl: string, publicationYear: int, userId: int)
    requires Wf(db)
    ensures var w := CreateAsWritten(db, title, author, isbn, status, imageUrl, publicationYear, userId);
      w.db != db ==>
        && w.result.Ok?
        && Retrieve(w.db, w.result.value)
             == Ok(Book(BookRow(w.result.value, title, author, isbn, publicationYear, imageUrl, db.clock, db.clock), userId, status))
        && Count(w.db) == Count(db) + 1
  {
    CreateThenRetrieve(db, title, author, isbn, status, imageUrl, publicationYear, userId);
    CountsAfterCreate(db, title, author, isbn, status, imageUrl, publicationYear, userId, userId);
  }

  /** Creating a book adds one to the book count, and one to its owner's finished count exactly when created finished. */
  lemma CountsAfterCreate(db: Db, title: string, author: string, isbn: string, status: string,
                          imageUrl: string, publicationYear: int, userId: int, who: int)
    ensures var r := Create(db, title, author, isbn, status, imageUrl, publicationYear, userId);
      r.result.Ok? ==>
        && Count(r.db) == Count(db) + 1
        && CountFinishedBooks(r.db, who) == CountFinishedBooks(db, who) + (if who == userId && status == "finished" then 1 else 0)
  {
    var r := Create(db, title, author, isbn, status, imageUrl, publicationYear, userId);
    if r.result.Ok? {
      Seqs.FilterAppend(db.userBooks, r.db.userBooks[|db.userBooks|], (l: UserBookRow) => FinishedBy(l, who));
    }
  }
}
