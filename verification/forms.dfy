/**
 The per-form validation rules and the accept/reject decision of the book
 image upload. Each `Validate` is a fixed sequence of `CheckField` calls on
 the form's accumulator; since the first error recorded for a key wins, the
 order of the calls decides which message a field shows.
 */
module Forms {
  import opened Wrappers
  import opened Validation
  import opened FormBase
  import Decimal

  const Required := "This field is required"
  const InvalidEmail := "The email address is not valid."
  const PasswordTooShort := "Password must be at least 8 characters."
  const TitleRequired := "Title is required"
  const AuthorRequired := "Author is required"
  const IsbnRequired := "ISBN is required"
  const RatingOutOfRange := "Rating must be a number between 1 and 5"
  const ReviewTextRequired := "Review text is required"
  const NoteTextRequired := "Note text is required"
  const InvalidFileTypeMessage := "Invalid file type"

  const MinPasswordLength := 8
  const MaxRating := 5

  datatype UserLoginForm = UserLoginForm(username: string, password: string, base: Base)

  datatype RegisterForm = RegisterForm(email: string, username: string, password: string, base: Base)

  datatype BookForm = BookForm(
    id: int, title: string, author: string, isbn: string, publicationYear: int,
    status: string, imageUrl: string, currentImageUrl: string, base: Base)

  datatype BookReviewForm = BookReviewForm(id: int, bookId: int, rating: int, reviewText: string, base: Base)

  datatype BookNoteForm = BookNoteForm(id: int, bookId: int, noteText: string, pageNumber: int, base: Base)

  /** The message of a required field: present exactly when the value is blank. */
  function Missing(value: string, message: string): Option<string> {
    if NotBlank(value) then None else Some(message)
  }

  /** The message the email field shows: blankness is reported before the format. */
  function EmailProblem(email: string, emailRx: string -> bool): Option<string> {
    if !NotBlank(email) then Some(Required)
    else if !Matches(email, emailRx) then Some(InvalidEmail)
    else None
  }

  /** The message the password field shows: blankness is reported before the length. */
  function PasswordProblem(password: string): Option<string> {
    if !NotBlank(password) then Some(Required)
    else if !MinChars(password, MinPasswordLength) then Some(PasswordTooShort)
    else None
  }

  /** The message the rating field shows: only an upper bound is checked. */
  function RatingProblem(rating: int): Option<string> {
    if MaxNumber(rating, MaxRating) then None else Some(RatingOutOfRange)
  }

  /** Login: username and password are required. Errors already recorded are kept. */
  function ValidateLogin(f: UserLoginForm): (r: UserLoginForm)
    ensures r.base.fieldErrors
      == Entry("password", Missing(f.password, Required))
       + (Entry("username", Missing(f.username, Required)) + f.base.fieldErrors)
    ensures r.base.nonFieldErrors == f.base.nonFieldErrors
    ensures r == f.(base := r.base)
  {
    var b1 := CheckField(f.base, NotBlank(f.username), "username", Required);
    CheckFieldUnion(f.base, NotBlank(f.username), "username", Required);
    var b2 := CheckField(b1, NotBlank(f.password), "password", Required);
    CheckFieldUnion(b1, NotBlank(f.password), "password", Required);
    f.(base := b2)
  }

  /**
   Register: username required; email required, then matching the email
   pattern; password required, then at least eight characters.
   */
  function ValidateRegister(f: RegisterForm, emailRx: string -> bool): (r: RegisterForm)
    ensures r.base.fieldErrors
      == Entry("password", PasswordProblem(f.password))
       + (Entry("email", EmailProblem(f.email, emailRx))
       + (Entry("username", Missing(f.username, Required)) + f.base.fieldErrors))
    ensures r.base.nonFieldErrors == f.base.nonFieldErrors
    ensures r == f.(base := r.base)
  {
    var b1 := CheckField(f.base, NotBlank(f.username), "username", Required);
    CheckFieldUnion(f.base, NotBlank(f.username), "username", Required);
    var b3 := CheckField(CheckField(b1, NotBlank(f.email), "email", Required), Matches(f.email, emailRx), "email", InvalidEmail);
    TwoChecksOneKey(b1, NotBlank(f.email), Required, Matches(f.email, emailRx), InvalidEmail, "email");
    var b5 := CheckField(CheckField(b3, NotBlank(f.password), "password", Required),
      MinChars(f.password, MinPasswordLength), "password", PasswordTooShort);
    TwoChecksOneKey(b3, NotBlank(f.password), Required, MinChars(f.password, MinPasswordLength), PasswordTooShort, "password");
    f.(base := b5)
  }

  /** Book: title, author and isbn required; publication year and status are not checked. */
  function ValidateBook(f: BookForm): (r: BookForm)
    ensures r.base.fieldErrors
      == Entry("isbn", Missing(f.isbn, IsbnRequired))
       + (Entry("author", Missing(f.author, AuthorRequired))
       + (Entry("title", Missing(f.title, TitleRequired)) + f.base.fieldErrors))
    ensures r.base.nonFieldErrors == f.base.nonFieldErrors
    ensures r == f.(base := r.base)
  {
    var b1 := CheckField(f.base, NotBlank(f.title), "title", TitleRequired);
    CheckFieldUnion(f.base, NotBlank(f.title), "title", TitleRequired);
    var b2 := CheckField(b1, NotBlank(f.author), "author", AuthorRequired);
    CheckFieldUnion(b1, NotBlank(f.author), "author", AuthorRequired);
    var b3 := CheckField(b2, NotBlank(f.isbn), "isbn", IsbnRequired);
    CheckFieldUnion(b2, NotBlank(f.isbn), "isbn", IsbnRequired);
    f.(base := b3)
  }

  /** Review: rating at most 5 (no lower bound), review text required. */
  function ValidateReview(f: BookReviewForm): (r: BookReviewForm)
    ensures r.base.fieldErrors
      == Entry("review_text", Missing(f.reviewText, ReviewTextRequired))
       + (Entry("rating", RatingProblem(f.rating)) + f.base.fieldErrors)
    ensures r.base.nonFieldErrors == f.base.nonFieldErrors
    ensures r == f.(base := r.base)
  {
    var b1 := CheckField(f.base, MaxNumber(f.rating, MaxRating), "rating", RatingOutOfRange);
    CheckFieldUnion(f.base, MaxNumber(f.rating, MaxRating), "rating", RatingOutOfRange);
    var b2 := CheckField(b1, NotBlank(f.reviewText), "review_text", ReviewTextRequired);
    CheckFieldUnion(b1, NotBlank(f.reviewText), "review_text", ReviewTextRequired);
    f.(base := b2)
  }

  /** Note: note text required; the page number is not checked. */
  function ValidateNote(f: BookNoteForm): (r: BookNoteForm)
    ensures r.base.fieldErrors == Entry("note_text", Missing(f.noteText, NoteTextRequired)) + f.base.fieldErrors
    ensures r.base.nonFieldErrors == f.base.nonFieldErrors
    ensures r == f.(base := r.base)
  {
    CheckFieldUnion(f.base, NotBlank(f.noteText), "note_text", NoteTextRequired);
    f.(base := CheckField(f.base, NotBlank(f.noteText), "note_text", NoteTextRequired))
  }

  /** On a fresh login form the errors are exactly the blank fields, each "This field is required". */
  lemma LoginErrorsOnFreshForm(f: UserLoginForm)
    requires f.base == Empty
    ensures var e := ValidateLogin(f).base.fieldErrors;
      && ("username" in e <==> !NotBlank(f.username))
      && ("password" in e <==> !NotBlank(f.password))
      && (forall k :: k in e ==> (k == "username" || k == "password") && e[k] == Required)
    ensures Valid(ValidateLogin(f).base) <==> NotBlank(f.username) && NotBlank(f.password)
  {
    var e := ValidateLogin(f).base.fieldErrors;
    if !NotBlank(f.username) {
      assert "username" in e;
    }
  }

  /** On a fresh register form, a blank email or password shows "required", never the format or length message. */
  lemma RegisterRequiredComesFirst(f: RegisterForm, emailRx: string -> bool)
    requires f.base == Empty
    ensures var e := ValidateRegister(f, emailRx).base.fieldErrors;
      && ("username" in e <==> !NotBlank(f.username))
      && (!NotBlank(f.email) ==> "email" in e && e["email"] == Required)
      && (NotBlank(f.email) ==> ("email" in e <==> !emailRx(f.email)))
      && (NotBlank(f.email) && !emailRx(f.email) ==> e["email"] == InvalidEmail)
      && (!NotBlank(f.password) ==> "password" in e && e["password"] == Required)
      && (NotBlank(f.password) ==> ("password" in e <==> |f.password| < MinPasswordLength))
      && (NotBlank(f.password) && |f.password| < MinPasswordLength ==> e["password"] == PasswordTooShort)
  {
  }

  /** On a fresh book form the errors are exactly the blank title, author and isbn; year and status never matter. */
  lemma BookErrorsOnFreshForm(f: BookForm, year: int, status: string)
    requires f.base == Empty
    ensures var e := ValidateBook(f).base.fieldErrors;
      && ("title" in e <==> !NotBlank(f.title))
      && ("author" in e <==> !NotBlank(f.author))
      && ("isbn" in e <==> !NotBlank(f.isbn))
      && e.Keys <= {"title", "author", "isbn"}
    ensures ValidateBook(f.(publicationYear := year, status := status)).base == ValidateBook(f).base
  {
  }

  /** On a fresh review form, the rating fails exactly above 5 (zero and negatives pass) and the text exactly when blank. */
  lemma ReviewErrorsOnFreshForm(f: BookReviewForm)
    requires f.base == Empty
    ensures var e := ValidateReview(f).base.fieldErrors;
      && ("rating" in e <==> f.rating > MaxRating)
      && ("review_text" in e <==> !NotBlank(f.reviewText))
      && e.Keys <= {"rating", "review_text"}
  {
  }

  /** On a fresh note form only the note text is checked: any page number, negative included, passes. */
  lemma NoteErrorsOnFreshForm(f: BookNoteForm, page: int)
    requires f.base == Empty
    ensures Valid(ValidateNote(f).base) <==> NotBlank(f.noteText)
    ensures ValidateNote(f.(pageNumber := page)).base == ValidateNote(f).base
  {
    var e := ValidateNote(f).base.fieldErrors;
    if !NotBlank(f.noteText) {
      assert "note_text" in e;
    }
  }

  /** What the request holds under the `image_upload` field. */
  datatype FilePart =
    | Missing
    | Unreadable
    | Attached(contentType: string, filename: string)

  /** The errors `HandleFileUpload` returns. */
  datatype UploadError = InvalidFileType | FormBadRequest | WriteFailed

  /** The form after the upload decision, and the error returned, if any. */
  datatype Upload = Upload(form: BookForm, error: Option<UploadError>)

  const AcceptedTypes: seq<string> := ["image/jpeg", "image/png"]

  /** The stored file name: the nanosecond timestamp, a dash, then the original file name. */
  function UploadName(nanos: int, filename: string): string {
    Decimal.FormatInt(nanos) + "-" + filename
  }

  function UploadUrl(nanos: int, filename: string): string {
    "/uploads/" + UploadName(nanos, filename)
  }

  /**
   The decision of HandleFileUpload: `currentImageUrl` is the request's
   `current_image_url` value, `nanos` the clock reading, and `written` whether
   creating and copying the new file succeeded.
   */
  function HandleFileUpload(f: BookForm, currentImageUrl: string, part: FilePart, nanos: int, written: bool): (r: Upload)
    ensures part.Missing? ==> r == Upload(f.(imageUrl := currentImageUrl), None)
    ensures r.error.None? <==> part.Missing? || (part.Attached? && part.contentType in AcceptedTypes && written)
    ensures r.error == Some(InvalidFileType) <==> part.Attached? && part.contentType !in AcceptedTypes
    ensures r.error == Some(InvalidFileType) ==> r.form.base == AddNonFieldError(f.base, InvalidFileTypeMessage)
    ensures r.error != Some(InvalidFileType) ==> r.form.base == f.base
    ensures r.error.Some? ==> r.form.imageUrl == f.imageUrl
    ensures part.Attached? && r.error.None? ==> r.form.imageUrl == UploadUrl(nanos, part.filename)
    ensures r.form == f.(imageUrl := r.form.imageUrl, base := r.form.base)
  {
    match part
    case Missing => Upload(f.(imageUrl := currentImageUrl), None)
    case Unreadable => Upload(f, Some(FormBadRequest))
    case Attached(contentType, filename) =>
      if !PermittedValue(contentType, AcceptedTypes) then
        Upload(f.(base := AddNonFieldError(f.base, InvalidFileTypeMessage)), Some(InvalidFileType))
      else if !written then Upload(f, Some(WriteFailed))
      else Upload(f.(imageUrl := UploadUrl(nanos, filename)), None)
  }

  /** A rejected file type leaves the form invalid, whatever it held before. */
  lemma RejectedTypeInvalidatesForm(f: BookForm, currentImageUrl: string, contentType: string, filename: string, nanos: int, written: bool)
    requires contentType !in AcceptedTypes
    ensures !Valid(HandleFileUpload(f, currentImageUrl, Attached(contentType, filename), nanos, written).form.base)
  {
  }

  /** The position of the first `c` in `s`, or `|s|` when there is none. */
  function IndexOf(s: string, c: char): (r: nat)
    ensures r <= |s|
    ensures r < |s| ==> s[r] == c
    ensures forall i :: 0 <= i < r ==> s[i] != c
    decreases |s|
  {
    if |s| == 0 then 0 else if s[0] == c then 0 else 1 + IndexOf(s[1..], c)
  }

  /** Splits a stored file name back into the timestamp and the original file name. */
  function SplitUploadName(name: string): Option<(int, string)> {
    var negative := |name| > 0 && name[0] == '-';
    var rest := if negative then name[1..] else name;
    var dash := IndexOf(rest, '-');
    var digits := rest[..dash];
    if dash == |rest| || dash == 0 || !Decimal.AllDigits(digits) then None
    else
      var value: int := Decimal.DigitsValue(digits);
      Some((if negative then -value else value, rest[dash + 1..]))
  }

  /** In digits, a dash and a file name, the first dash is the one after the digits. */
  lemma FirstDashAfterDigits(digits: string, filename: string)
    requires Decimal.AllDigits(digits)
    ensures var rest := digits + "-" + filename;
      && IndexOf(rest, '-') == |digits|
      && rest[..|digits|] == digits
      && rest[|digits| + 1..] == filename
  {
    var rest := digits + "-" + filename;
    assert forall i :: 0 <= i < |digits| ==> rest[i] == digits[i];
    assert rest[|digits|] == '-';
    assert rest[..|digits|] == digits;
    assert rest[|digits| + 1..] == filename;
  }

  /** The timestamp and the original file name can be read back from the stored name. */
  lemma UploadNameRoundTrip(nanos: int, filename: string)
    ensures SplitUploadName(UploadName(nanos, filename)) == Some((nanos, filename))
  {
    var digits := Decimal.FormatNat(if nanos < 0 then -nanos else nanos);
    var rest := digits + "-" + filename;
    FirstDashAfterDigits(digits, filename);
    if nanos < 0 {
      assert UploadName(nanos, filename) == "-" + rest;
      assert ("-" + rest)[1..] == rest;
    } else {
      assert UploadName(nanos, filename) == rest;
      assert rest[0] == digits[0] != '-';
    }
  }

  /** Two uploads get the same stored name only with the same timestamp and the same original name. */
  lemma UploadNamesDistinct(n1: int, f1: string, n2: int, f2: string)
    requires UploadUrl(n1, f1) == UploadUrl(n2, f2)
    ensures n1 == n2 && f1 == f2
  {
    var p := "/uploads/";
    assert UploadName(n1, f1) == UploadUrl(n1, f1)[|p|..];
    assert UploadName(n2, f2) == UploadUrl(n2, f2)[|p|..];
    UploadNameRoundTrip(n1, f1);
    UploadNameRoundTrip(n2, f2);
  }
}
