/**
 The database the repositories work on, as immutable tables, and the closed
 set of errors they report. Each table is a sequence of rows in insertion
 (rowid) order. A logical clock stands for `CURRENT_TIMESTAMP`: every insert
 stamps its row with the clock and advances it, so `created_at` grows with
 the rowid and `ORDER BY created_at DESC` is the table read backwards.
 */
module Schema {
  import opened Wrappers
  import opened Seqs

  /** Why a non-domain error happened; the source reports these as plain, unclassified errors. */
  datatype Cause =
    | NotOwned          // Book.Delete: no user_books row ties the book to the caller
    | NotFound          // a DELETE that matched no row
    | ConstraintFailed  // a CHECK or FOREIGN KEY violation
    | NullColumn        // scanning a NULL from a LEFT JOIN into a Go int
    | BadLookupField    // Exists with an unknown LookupField
    | HashFailed        // the password hasher refused the password

  /** The domain errors of models/base.go, plus every other error as `Other`. */
  datatype Error =
    | NoRecord
    | InvalidCredentials
    | DuplicateEmail
    | DuplicateUsername
    | DuplicateIsbn
    | Other(cause: Cause)

  datatype Result<T> = Ok(value: T) | Err(error: Error)

  /** The reading status the user_books CHECK constraint allows. */
  datatype Status = WantToRead | Reading | Finished

  function StatusName(s: Status): string {
    match s
    case WantToRead => "want_to_read"
    case Reading => "reading"
    case Finished => "finished"
  }

  /** The status a text names, or `None` when the CHECK constraint would reject it. */
  function ParseStatus(name: string): (r: Option<Status>)
    ensures r.Some? ==> StatusName(r.value) == name
    ensures r.None? ==> forall s: Status :: StatusName(s) != name
  {
    if name == "want_to_read" then Some(WantToRead)
    else if name == "reading" then Some(Reading)
    else if name == "finished" then Some(Finished)
    else None
  }

  /** Every status is stored under its own name and read back as itself. */
  lemma StatusRoundTrip(s: Status)
    ensures ParseStatus(StatusName(s)) == Some(s)
  {
  }

  /** A password hash; the plaintext is never stored. */
  datatype Digest = Digest(bytes: seq<bv8>)

  datatype UserRow = UserRow(id: int, username: string, email: string, password: Digest)

  datatype BookRow = BookRow(
    id: int, title: string, author: string, isbn: string, publicationYear: int,
    imageUrl: string, createdAt: nat, updatedAt: nat)

  /** A user_books row: which user tracks which book, with what status. */
  datatype UserBookRow = UserBookRow(userId: int, bookId: int, status: Status)

  datatype NoteRow = NoteRow(
    id: int, userId: int, bookId: int, noteText: string, pageNumber: int,
    createdAt: nat, updatedAt: nat)

  datatype ReviewRow = ReviewRow(
    id: int, userId: int, bookId: int, rating: int, reviewText: string,
    createdAt: nat, updatedAt: nat)

  /** The five tables, the next AUTOINCREMENT id of each keyed table, and the clock. */
  datatype Db = Db(
    users: seq<UserRow>, books: seq<BookRow>, userBooks: seq<UserBookRow>,
    notes: seq<NoteRow>, reviews: seq<ReviewRow>,
    nextUserId: int, nextBookId: int, nextNoteId: int, nextReviewId: int,
    clock: nat)

  const EmptyDb: Db := Db([], [], [], [], [], 1, 1, 1, 1, 0)

  /** The state after an operation and what it returned; every failed operation leaves the state as it was. */
  datatype Tx<T> = Tx(db: Db, result: Result<T>)

  predicate HasUser(db: Db, id: int) {
    exists u :: u in db.users && u.id == id
  }

  predicate HasBook(db: Db, id: int) {
    exists b :: b in db.books && b.id == id
  }

  predicate HasUserBook(db: Db, bookId: int) {
    exists l :: l in db.userBooks && l.bookId == bookId
  }

  function BookById(db: Db, id: int): Option<BookRow> {
    Find(db.books, (b: BookRow) => b.id == id)
  }

  function UserBookOf(db: Db, bookId: int): Option<UserBookRow> {
    Find(db.userBooks, (l: UserBookRow) => l.bookId == bookId)
  }

  /** Ids grow with the rowid (AUTOINCREMENT); username and email are UNIQUE. */
  predicate UserOrder(a: UserRow, b: UserRow) {
    a.id < b.id && a.username != b.username && a.email != b.email
  }

  /** Ids and creation times grow with the rowid; isbn is UNIQUE. */
  predicate BookOrder(a: BookRow, b: BookRow) {
    a.id < b.id && a.createdAt < b.createdAt && a.isbn != b.isbn
  }

  /**
   At most one user_books row per book. The table only declares (user_id,
   book_id) UNIQUE; one row per book holds because Books.Create inserts a
   book's only row and nothing else inserts one.
   */
  predicate UserBookOrder(a: UserBookRow, b: UserBookRow) {
    a.bookId != b.bookId
  }

  predicate NoteOrder(a: NoteRow, b: NoteRow) {
    a.id < b.id && a.createdAt < b.createdAt
  }

  predicate ReviewOrder(a: ReviewRow, b: ReviewRow) {
    a.id < b.id && a.createdAt < b.createdAt
  }

  ghost predicate UsersWf(db: Db) {
    && Pairwise(db.users, UserOrder)
    && 1 <= db.nextUserId
    && forall u :: u in db.users ==> 1 <= u.id < db.nextUserId
  }

  ghost predicate BooksWf(db: Db) {
    && Pairwise(db.books, BookOrder)
    && 1 <= db.nextBookId
    && forall b :: b in db.books ==> 1 <= b.id < db.nextBookId && b.createdAt < db.clock
  }

  /**
   The user_books FOREIGN KEYs hold, and every book has its user_books row.
   No clause of the schema demands the latter: it holds because creating a
   book inserts both rows in one transaction, and deleting a book cascades
   to its row.
   */
  ghost predicate UserBooksWf(db: Db) {
    && Pairwise(db.userBooks, UserBookOrder)
    && (forall l :: l in db.userBooks ==> HasUser(db, l.userId) && HasBook(db, l.bookId))
    && (forall b :: b in db.books ==> HasUserBook(db, b.id))
  }

  ghost predicate NotesWf(db: Db) {
    && Pairwise(db.notes, NoteOrder)
    && 1 <= db.nextNoteId
    && forall n :: n in db.notes ==> 1 <= n.id < db.nextNoteId && n.createdAt < db.clock
  }

  ghost predicate ReviewsWf(db: Db) {
    && Pairwise(db.reviews, ReviewOrder)
    && 1 <= db.nextReviewId
    && forall r :: r in db.reviews ==> 1 <= r.id < db.nextReviewId && r.createdAt < db.clock
  }

  /**
   The invariants the schema (UNIQUE, CHECK, FOREIGN KEY, ON DELETE CASCADE,
   AUTOINCREMENT) and the repository operations together maintain.
   */
  ghost predicate Wf(db: Db) {
    UsersWf(db) && BooksWf(db) && UserBooksWf(db) && NotesWf(db) && ReviewsWf(db)
  }

  lemma EmptyDbWf()
    ensures Wf(EmptyDb)
  {
  }

  /** In a well-formed database the book with a given id is unique, so lookups by id are well defined. */
  lemma BookIdUnique(db: Db, x: BookRow, y: BookRow)
    requires BooksWf(db)
    requires x in db.books && y in db.books && x.id == y.id
    ensures x == y
  {
    var i :| 0 <= i < |db.books| && db.books[i] == x;
    var j :| 0 <= j < |db.books| && db.books[j] == y;
  }

  /** In a well-formed database a book has at most one user_books row (UserBooksWf also says it has one). */
  lemma UserBookUnique(db: Db, x: UserBookRow, y: UserBookRow)
    requires UserBooksWf(db)
    requires x in db.userBooks && y in db.userBooks && x.bookId == y.bookId
    ensures x == y
  {
    var i :| 0 <= i < |db.userBooks| && db.userBooks[i] == x;
    var j :| 0 <= j < |db.userBooks| && db.userBooks[j] == y;
  }

  /** In a well-formed database note ids are unique. */
  lemma NoteIdUnique(db: Db, x: NoteRow, y: NoteRow)
    requires NotesWf(db)
    requires x in db.notes && y in db.notes && x.id == y.id
    ensures x == y
  {
    var i :| 0 <= i < |db.notes| && db.notes[i] == x;
    var j :| 0 <= j < |db.notes| && db.notes[j] == y;
  }

  /** In a well-formed database review ids are unique. */
  lemma ReviewIdUnique(db: Db, x: ReviewRow, y: ReviewRow)
    requires ReviewsWf(db)
    requires x in db.reviews && y in db.reviews && x.id == y.id
    ensures x == y
  {
    var i :| 0 <= i < |db.reviews| && db.reviews[i] == x;
    var j :| 0 <= j < |db.reviews| && db.reviews[j] == y;
  }
}
