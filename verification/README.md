# go-bookreview in Dafny

A model of the core of go-bookreview, a server-rendered book review site:
the form validation layer (`internal/forms`) and the four SQLite-backed
repositories (`internal/models`) for books, notes, reviews and users.

- **Validation** (`validation.dfy`, `decimal.dfy`): the validators of
  `forms/validation.go` as pure predicates. `ValidNumber` is modelled on a
  decimal parser for Go's `strconv.ParseInt(value, 10, 64)`, and the `%d`
  formatter used for upload names.
- **Form state** (`formbase.dfy`): the `Base` error maps and the
  first-error-wins rule of `AddFieldError`. Also `CheckField`, and validity
  as "no errors of either kind".
- **Forms** (`forms.dfy`): the `Validate` method of every form, written as
  the sequence of checks the source performs. Also the decision part of
  `HandleFileUpload`: which request leads to which error, which image URL
  and which form state.
- **Database** (`schema.dfy`): the tables as immutable sequences of rows in
  insertion order, and the closed error set of `models/base.go`. Every other
  error is an `Other` with its cause. `Wf` states the invariants that the
  schema (UNIQUE, CHECK, FOREIGN KEY and ON DELETE CASCADE clauses, and
  AUTOINCREMENT) and the repository operations maintain together. "Each
  book has exactly one user_books row" comes from the operations alone:
  Books.Create inserts the two rows together, and nothing else inserts a
  user_books row.
  - Books.Create is the intended behaviour of book.go's Create. The code as
    written reports success with id 0 when the user_books insert fails;
    that version is `Books.CreateAsWritten`, described under "## Findings".
  - A logical clock stands for `CURRENT_TIMESTAMP`. Every insert stamps the
    row and advances the clock, so "newest first" is the table read
    backwards.
- **Repositories** (`books.dfy`, `notes.dfy`, `reviews.dfy`, `users.dfy`):
  each repository method is a pure function from a database to a `Tx`,
  which holds the database afterwards and the result.
  - A failed transaction leaves the database as it was.
  - `like.dfy` models SQLite's `LIKE '%term%'`, which ignores ASCII case.
  - Password hashing is a parameter (`Users.Hasher`).

The properties proved:
- **Round trips.** Create then Retrieve (for the code as written, only
  when the call changed the database), Create then Authenticate, Update
  then Retrieve, status names, upload names and `%d` numbers.
- **Invariant preservation.** Every mutating operation keeps `Wf`.
- **Error classification.** When each domain error is reported, both
  directions.
- **Ownership scoping.** Another user's notes and reviews are invisible to
  every scoped operation.
- **Pagination arithmetic.** The page count is the ceiling of total over
  page size, and a page past the end is served as the last page. Every book
  appears on the page its position predicts, newest first.
- **Ordering and limits.** The recent books and recent reviews are the
  newest ones.
- **Counters.** The home page counts react to creates as expected.

## Model

| member | source | states |
|---|---|---|
| Validation.NotBlank | internal/forms/validation.go:17-19 | true exactly when some character of the value is not Unicode white space, so trimming leaves something |
| Validation.BlankExamples | internal/forms/validation_test.go:16-25 | the empty string and a string of spaces, a tab and a newline are blank |
| Validation.NotBlankExamples | internal/forms/validation_test.go:26-35 | "hello" and "  hello  " are not blank: surrounding white space does not matter |
| Validation.MaxChars | internal/forms/validation.go:23-25 | true exactly when the bound is not negative and cutting the value to that many characters loses nothing |
| Validation.MinChars | internal/forms/validation.go:44-46 | true exactly when the value is too long for MaxChars with one less |
| Validation.MinCharsIsNotMaxChars | internal/forms/validation.go:44-46 | MinChars(v, n) holds exactly when MaxChars(v, n - 1) fails; a value is within its own length and over one less |
| Validation.MaxCharsExamples | internal/forms/validation.go:23-25 | the limit itself passes and one character more fails, as in the MaxChars test table |
| Validation.PermittedValue | internal/forms/validation.go:29-31 | true exactly when the value occurs in the permitted list; an empty list permits nothing |
| Validation.PermittedValueExamples | internal/forms/validation_test.go:89-152 | 1 is among 1, 2, 3 and 4 is not; no value is permitted by an empty list |
| Validation.ValidDate | internal/forms/validation.go:35-40 | true exactly when the date is not Go's zero time |
| Validation.ValidDateExamples | internal/forms/validation_test.go:154-176 | the zero time is not a valid date; January 1 2024 and December 25 2020 at midnight UTC are |
| Validation.Matches | internal/forms/validation.go:50-52 | the verdict is exactly that of the supplied pattern, with the pattern a parameter |
| Validation.MaxNumberHasNoLowerBound | internal/forms/validation.go:61-63 | MaxNumber accepts the bound and every smaller number, however negative, and rejects the number just above the bound |
| Validation.ValidNumber | internal/forms/validation.go:55-58 | accepted exactly when the value is an optional sign followed by one or more decimal digits and nothing else, and the signed value lies in the int64 range |
| Validation.ValidNumberOfFormatted | internal/forms/validation.go:55-58 | a number written in decimal is accepted exactly when it lies in the int64 range |
| Validation.ValidNumberExamples | internal/forms/validation.go:55-58 | "+5", "007" and "-0" are accepted; "", a lone "-", "1_000" and " 5" are not |
| Validation.ValidNumberBounds | internal/forms/validation.go:55-58 | the decimal spellings of the least and greatest int64 are accepted, and one past either end is not |
| Decimal.ParseInt64 | internal/forms/validation.go:55-58 | succeeds exactly when the text is an optional sign followed by one or more digits and its signed value fits in int64, and then yields that signed value |
| Decimal.FormatParseRoundTrip | internal/forms/validation.go:55-58 | parsing the decimal text of an int64 gives the same number back; text out of range is refused |
| Decimal.ParsedShape | internal/forms/validation.go:55-58 | text that parses is an optional sign followed by digits only |
| FormBase.InvalidWithAnyError | internal/forms/base.go:31-33 | a form is valid exactly when both error collections are empty |
| FormBase.AddFieldError | internal/forms/base.go:36-47 | afterwards the field has an error; its message is the new one only if the field had none, and every other field is untouched |
| FormBase.FirstFieldErrorWins | internal/forms/base.go:44-46 | a second error for the same field never replaces the first |
| FormBase.AddFieldErrorIdempotent | internal/forms/base.go:36-47 | adding the same field error twice is the same as adding it once |
| FormBase.AddFieldErrorCommutes | internal/forms/base.go:36-47 | errors for two different fields can be added in either order |
| FormBase.AddNonFieldError | internal/forms/base.go:50-52 | the message is appended after the earlier non-field errors and field errors are untouched |
| FormBase.CheckField | internal/forms/base.go:56-60 | a passing check changes nothing; a failing one adds the field error |
| FormBase.CheckFieldUnion | internal/forms/base.go:56-60 | after a check the field's entry is the earlier one if there was one, otherwise the message if the check failed |
| FormBase.TwoChecksOneKey | internal/forms/base.go:56-60 | of two checks on one field, the field keeps the message of the first failing check |
| FormBase.ApplyAllKeeps | internal/forms/base.go:36-60 | a sequence of checks never removes or changes an error already present |
| FormBase.InvalidStaysInvalid | internal/forms/base.go:31-60 | once a form is invalid no later check makes it valid |
| Forms.ValidateLogin | internal/forms/forms.go:23-26 | username and password each gain "This field is required" when blank, unless the field already had an error; earlier errors, non-field errors and the other fields stay |
| Forms.LoginErrorsOnFreshForm | internal/forms/forms.go:23-26 | on a fresh form the errors are exactly the blank fields, each with the required message, so the form is valid exactly when neither is blank |
| Forms.ValidateRegister | internal/forms/forms.go:37-43 | username is required; email shows the required message before the pattern message; password shows the required message before the eight-character minimum; earlier errors and other fields stay |
| Forms.RegisterRequiredComesFirst | internal/forms/forms.go:37-43 | on a fresh form a blank email or password shows "This field is required", never the format or length message; a non-blank one fails exactly when it breaks that rule |
| Forms.ValidateBook | internal/forms/forms.go:60-64 | title, author and isbn each gain their own required message when blank; publication year and status are not checked |
| Forms.BookErrorsOnFreshForm | internal/forms/forms.go:60-64 | on a fresh form the errors are exactly the blank title, author and isbn; changing the year or the status never changes the outcome |
| Forms.ValidateReview | internal/forms/forms.go:139-142 | the rating fails exactly when it is above 5, and the text exactly when it is blank; other fields are untouched |
| Forms.ReviewErrorsOnFreshForm | internal/forms/forms.go:139-142 | on a fresh form the rating fails exactly above 5, so 0 and negative ratings pass, and the text fails exactly when blank |
| Forms.ValidateNote | internal/forms/forms.go:154-156 | the note text fails exactly when blank |
| Forms.NoteErrorsOnFreshForm | internal/forms/forms.go:154-156 | on a fresh form the note is valid exactly when its text is not blank; the page number, negative included, never matters |
| Forms.HandleFileUpload | internal/forms/forms.go:68-127 | no file keeps the current image URL with no error; an unreadable part is a bad request; a type other than JPEG or PNG adds a non-field error; a write failure is an error; otherwise the URL is /uploads/ followed by the timestamp, a dash and the file name. No other field changes |
| Forms.RejectedTypeInvalidatesForm | internal/forms/forms.go:89-95 | a rejected content type always leaves the form invalid |
| Forms.UploadNameRoundTrip | internal/forms/forms.go:97-98 | the timestamp and the original file name can be read back from the stored name |
| Forms.UploadNamesDistinct | internal/forms/forms.go:97-98 | two uploads share a URL only if both the timestamp and the original file name agree |
| Schema.ParseStatus | internal/testutil/db.go:65 | a text is accepted exactly when it names one of the three statuses, and it then names that status |
| Schema.StatusRoundTrip | internal/testutil/db.go:65 | every status is stored under its name and read back as itself |
| Schema.EmptyDbWf | internal/testutil/db.go:43-70 | the empty database satisfies every schema invariant |
| Schema.BookIdUnique | internal/testutil/db.go:51-60 | in a well-formed database no two book rows share an id |
| Schema.UserBookUnique | internal/testutil/db.go:61-70 | in a well-formed database a book has at most one user_books row; that it has one is a separate conjunct of the invariant |
| Like.Contains | internal/models/book.go:316-326 | true exactly when the term occurs at some position of the text, comparing letters without regard to ASCII case |
| Like.EmptyTermMatchesEverything | internal/models/book.go:316-326 | the empty search term matches every text, the empty text included |
| Like.ContainsExamples | internal/models/book.go:316-326 | on sample texts: a term in different case matches, the empty term matches, and a term longer than the text does not |
| Books.Create | internal/models/book.go:43-107 | the intended Create (see Findings): DuplicateIsbn exactly when the isbn is taken; success exactly when the isbn is free, the status is valid and the user exists; any other failure is a constraint error and changes nothing; success appends the book and its user_books row under a fresh id |
| Books.CreatePreservesWf | internal/models/book.go:43-107 | creating a book keeps every schema invariant |
| Books.CreateThenRetrieve | internal/models/book.go:110-138 | after the intended Create, whose success always writes both rows, a created book reads back with its values, owned by its creator, with the chosen status |
| Books.CountsAfterCreate | internal/models/book.go:424-436 | after the intended Create, whose success always writes both rows, a created book adds one to the book count; the creator's finished count goes up by one exactly when the book is created as finished |
| Books.CreateAsWritten | internal/models/book.go:43-107 | the code as written: an error exactly when the isbn is taken, and then DuplicateIsbn with nothing written; a free isbn with an invalid status or an unknown user reports id 0 with no error and writes nothing; it writes exactly when the isbn is free, the status valid and the user known, and then acts as the intended Create |
| Books.CreateAsWrittenHidesFailure | internal/models/book.go:92-97 | the two versions agree except where the intended one reports a constraint error; there the written one reports book 0, which no well-formed database holds |
| Books.CreateAsWrittenExample | internal/models/book.go:92-97 | on the empty database, creating a book for the missing user 1 is a constraint error as intended, but as written it reports book 0 while nothing is stored |
| Books.CreateAsWrittenThenRetrieve | internal/models/book.go:43-138 | under the code as written, a call that changed a well-formed database created a book: it reads back as created and the book count grows by one |
| Books.CountFinishedBooks | internal/models/book.go:424-436 | the number of the user's user_books rows whose status is finished; zero exactly when there is none |
| Books.Retrieve | internal/models/book.go:110-138 | NoRecord exactly when no book has the id; a book without a user_books row fails on the NULL owner; otherwise the book comes with its owner and status |
| Books.RetrieveOwned | internal/models/book.go:110-138 | in a well-formed database every book reads back with its one owner and that owner's status |
| Books.Delete | internal/models/book.go:141-184 | refused exactly when the caller does not own the book; succeeds exactly when the caller owns an existing book; removes that book and its user_books rows and nothing else |
| Books.DeletePreservesWf | internal/models/book.go:141-184 | deleting keeps every schema invariant: the book and its user_books row leave together |
| Books.DeleteRemovesOne | internal/models/book.go:170-181 | a successful delete lowers the book count by exactly one |
| Books.Update | internal/models/book.go:188-243 | no book is NoRecord; an isbn held by another book is DuplicateIsbn; with the book present and the isbn free, NoRecord exactly when the book has no user_books row; NoRecord only for a missing book or row; success exactly when the book and its row exist, the status is valid and the isbn is free; only that book's columns and status change |
| Books.EditKeepsBookOrder | internal/models/book.go:203-213 | with the isbn free, rewriting a book's columns keeps ids, timestamps and isbn uniqueness |
| Books.UpdatePreservesWf | internal/models/book.go:188-243 | updating keeps every schema invariant |
| Books.TotalPages | internal/models/book.go:254 | the page count is the least count whose pages hold every book |
| Books.Skipped | internal/models/book.go:260 | page p skips the (p - 1) * pageSize newest books; a page below 1 skips none, as SQLite reads a negative OFFSET as none |
| Books.ServedPage | internal/models/book.go:256-258 | the served page is the requested one or the last one, never later than requested; a page within range is served as asked; from page 1 up it lies between 1 and the page count when there are pages |
| Books.Window | internal/models/book.go:262-270 | the page holds the next PageLength books after the skipped ones, newest first |
| Books.JoinOwners | internal/models/book.go:262-297 | the join fails exactly when some book on the page has no owner; otherwise each book comes with its owner and no status |
| Books.List | internal/models/book.go:246-312 | the total, the page count as a ceiling, the served page and the books of that page newest first, each with an owner and no status; the only failure is a book without an owner |
| Books.ListSucceeds | internal/models/book.go:246-312 | in a well-formed database listing never fails |
| Books.PageOfPosition | internal/models/book.go:254-260 | position k lies on page k / pageSize + 1, which exists, at offset k % pageSize |
| Books.ListPlacesEveryBook | internal/models/book.go:246-312 | every book appears on exactly the page and at the offset that its newest-first position predicts |
| Books.ListPastTheEnd | internal/models/book.go:254-270 | with ten books in pages of eight, page 5 is answered as page 2 of 2 and holds the two oldest books |
| Books.ListPageNotEmpty | internal/models/book.go:246-312 | for any page from 1 up and any non-empty, well-formed table, listing succeeds with at least one book |
| Books.Filter | internal/models/book.go:315-362 | a book is returned exactly when its title, one of its notes or one of its reviews contains the term, ignoring ASCII case, without owner or status |
| Books.FilterDistinct | internal/models/book.go:315-362 | the search returns each book at most once, in id order |
| Books.Count | internal/models/book.go:365-376 | the count is zero exactly when there is no book |
| Books.RetrieveRecentBooks | internal/models/book.go:379-421 | the newest `limit` books (every book when the limit is negative), newest first, without owner or status |
| Books.RecentBooksNewestFirst | internal/models/book.go:379-421 | the recent books come in strictly decreasing creation time |
| Books.RecentBooksBeatTheRest | internal/models/book.go:379-421 | whenever the books table is in creation order, as in every well-formed database, each book is either among the recent ones or older than each of them |
| Books.RecentBookListed | internal/models/book.go:379-421 | a book among the newest `limit` is in the recent list |
| Books.UnlistedBookOlder | internal/models/book.go:379-421 | with the table in creation order, a book outside the newest `limit` is older than every listed one |
| Notes.Create | internal/models/note.go:30-49 | the note is appended under the next id with both timestamps at the clock; nothing else changes |
| Notes.CreatePreservesWf | internal/models/note.go:30-49 | creating a note keeps every schema invariant |
| Notes.CreateThenRetrieve | internal/models/note.go:52-73 | a created note reads back for its author with what it was created with |
| Notes.CountAfterCreate | internal/models/note.go:159-171 | creating a note adds one to its author's count and leaves every other user's count unchanged |
| Notes.Retrieve | internal/models/note.go:52-73 | succeeds exactly when the caller has a note with that id, and returns that note; otherwise NoRecord |
| Notes.Update | internal/models/note.go:77-99 | succeeds exactly when the caller has the note; only its text and page change (updated_at is not touched); otherwise NoRecord and nothing changes |
| Notes.UpdatePreservesWf | internal/models/note.go:77-99 | updating a note keeps every schema invariant |
| Notes.UpdateThenRetrieve | internal/models/note.go:77-99 | after an update the note reads back with the new text and page and both timestamps as they were |
| Notes.Delete | internal/models/note.go:102-119 | succeeds exactly when the caller has the note and removes exactly that note; otherwise an unclassified error and nothing changes |
| Notes.DeletePreservesWf | internal/models/note.go:102-119 | deleting a note keeps every schema invariant |
| Notes.DeleteThenRetrieve | internal/models/note.go:102-119 | a deleted note can no longer be read |
| Notes.List | internal/models/note.go:122-156 | exactly the caller's notes on the book |
| Notes.Count | internal/models/note.go:159-171 | the number of notes whose user_id is the user's; zero exactly when the user wrote none |
| Notes.OthersNotesInvisible | internal/models/note.go:52-171 | Retrieve, Update, Delete, List and Count answer the same whether or not other users' notes exist |
| Reviews.Create | internal/models/review.go:32-53 | the review is appended under the next id with both timestamps at the clock, with no check on the rating; nothing else changes |
| Reviews.CreatePreservesWf | internal/models/review.go:32-53 | creating a review keeps every schema invariant |
| Reviews.CreateThenRetrieve | internal/models/review.go:56-77 | a created review reads back for its author with what it was created with |
| Reviews.CountAfterCreate | internal/models/review.go:168-180 | creating a review adds one to its author's count and leaves every other user's count unchanged |
| Reviews.Retrieve | internal/models/review.go:56-77 | succeeds exactly when the caller has a review with that id, and returns it; otherwise NoRecord |
| Reviews.Update | internal/models/review.go:81-102 | succeeds exactly when the caller has the review; only its rating and text change (updated_at is not touched); otherwise NoRecord and nothing changes |
| Reviews.UpdatePreservesWf | internal/models/review.go:81-102 | updating a review keeps every schema invariant |
| Reviews.Delete | internal/models/review.go:105-122 | succeeds exactly when the caller has the review and removes exactly that review; otherwise an unclassified error and nothing changes |
| Reviews.DeletePreservesWf | internal/models/review.go:105-122 | deleting a review keeps every schema invariant |
| Reviews.List | internal/models/review.go:125-165 | every review of the book by any user, each with its author's username, or "" when the author is missing |
| Reviews.Count | internal/models/review.go:168-180 | the number of reviews whose user_id is the user's; zero exactly when the user wrote none |
| Reviews.AuthorNameOfUser | internal/models/review.go:125-165 | in a well-formed database a review's author name is that user's username |
| Reviews.OthersReviewsInvisible | internal/models/review.go:56-180 | Retrieve, Update, Delete and Count answer the same whether or not other users' reviews exist |
| Reviews.NewestOnBooks | internal/models/review.go:183-226 | only reviews whose book exists take part in the home-page list |
| Reviews.RetrieveRecentReviews | internal/models/review.go:183-226 | the newest `limit` reviews of existing books, newest first, each shown with its book's title |
| Reviews.RecentReviewsAreReviews | internal/models/review.go:183-226 | each recent review is a stored review of an existing book, with that book's title |
| Reviews.NewestOnBooksOrdered | internal/models/review.go:183-226 | the reviews that take part run from newest to oldest |
| Reviews.RecentReviewsNewestFirst | internal/models/review.go:183-226 | the recent reviews come in strictly decreasing id order, newest first |
| Reviews.RecentReviewsBeatTheRest | internal/models/review.go:183-226 | every review of an existing book is either among the recent ones or older than each of them |
| Users.Create | internal/models/user.go:36-58 | a hasher failure is an error; a taken username is DuplicateUsername, checked before the email; a taken email is DuplicateEmail; otherwise the user is appended with the digest, never the password |
| Users.CreatePreservesWf | internal/models/user.go:36-58 | registering keeps usernames and emails unique and ids fresh |
| Users.DuplicateRegistrationRejected | internal/models/user.go:47-52 | registering again with a taken username is DuplicateUsername; with a free username but a taken email it is DuplicateEmail; either way nothing changes |
| Users.Exists | internal/models/user.go:61-78 | an unknown lookup field is an error; otherwise the answer is whether some user matches the value in that column |
| Users.ExistsAfterCreate | internal/models/user.go:61-78 | after registering, the new id, email and username are all reported as taken |
| Users.Authenticate | internal/models/user.go:83-107 | any failure is InvalidCredentials; an unknown username always fails; a success names a user with that username whose digest matches the password |
| Users.AuthenticateChecksPassword | internal/models/user.go:83-107 | with usernames unique, authentication succeeds for a user exactly when the password matches that user's digest, and returns that user's id |
| Users.CreateThenAuthenticate | internal/models/user.go:83-107 | a registered user can log in with the password they registered with and gets their new id |
| Users.WrongPasswordRejected | internal/models/user.go:83-107 | with a hasher that binds a digest to its one password, any other password is refused |

## Findings

| source | as written | input that shows it | evidently intended | confidence | as-written member | corrected member |
|---|---|---|---|---|---|---|
| internal/models/book.go:92-97 | when the user_books insert fails, `err` is reassigned by `tx.Rollback()`, so after a successful rollback the function returns `(0, nil)`: success with book id 0, nothing stored | a free isbn with status "want" (outside the CHECK list, and the book form does not check the status), or a user id with no users row | return the insert's error, as the other failure paths do | high, not executed | Books.CreateAsWritten, Books.CreateAsWrittenExample | Books.Create, Books.CreateAsWrittenHidesFailure |

## Left out

- HTTP handlers, templates, sessions, CSRF and the views package are out of scope. The model starts at the form and repository calls.
- Matches: the regular-expression engine is not modelled. The expression is a caller-supplied predicate, so `ValidateRegister` takes the email pattern as a parameter, and the pattern `EmailRX` itself is not modelled.
- Password hashing is a parameter (`Users.Hasher`). bcrypt's cost, salt and algorithm are not modelled. Its refusal of passwords over 72 bytes is the hasher returning no digest, which the model reports as `Other(HashFailed)`.
- Users.Authenticate: a stored digest that bcrypt cannot parse is treated like a wrong password. The source returns bcrypt's own error in that case, but the model's `verify` only answers yes or no, so it reports InvalidCredentials.
- Database I/O errors are not modelled: failures of Begin, Commit, Rollback, Scan, rows iteration, LastInsertId and RowsAffected. Only the errors the data itself causes are.
- `CURRENT_TIMESTAMP` is a logical clock, so two rows never share a creation time. SQLite's one-second resolution can give ties, which make "newest first" ambiguous. The model does not cover those ties.
- The notes and reviews table definitions are not part of this model. Their foreign keys and cascades are unknown, so deleting a book leaves its notes and reviews in place.
- SQL gives no order without ORDER BY. `Books.Filter`, `Notes.List` and `Reviews.List` return table order, and their contracts state membership only.
- Books.List: requires a page size of at least 1. The source divides by the page size, and its only caller passes 8.
- Books.Create: the fall-through branch for an insert failure other than a duplicate isbn is not reachable in the model. There, the books insert fails only on the isbn.
- Users.Exists: SQLite's type affinity is not modelled. A text value compared with the id column, or a number compared with a text column, matches no user.
- Users.Create: when both the username and the email clash, the model reports DuplicateUsername. The source reports whichever UNIQUE constraint SQLite names first.
- Books.Filter, Like.Contains: `%` and `_` in the search term are treated as literal characters, where SQLite treats them as wildcards, so the term "a_c" finds "abc" in the source but not in the model. Only ASCII letters fold case, as in SQLite.
- HandleFileUpload: the filesystem is abstracted. Creating and copying the new file is the single `written` flag, and the clock reading is the `nanos` parameter. Removing the old image only logs on failure and is left out.
- Counts and ids are unbounded integers. Go's 64-bit `int` overflow is not reachable with realistic data and is not modelled.
- Strings are sequences of code points, so invalid UTF-8 is not modelled.
- Concurrent requests are not modelled. Each operation is one atomic transaction over one database value.
- No operation deletes users, so the cascades from users are not exercised.
