/**
 The user repository (models/user.go): registering a user under a password
 hash, checking whether an id, email or username is taken, and
 authenticating by username and password. The password hash function is a
 parameter: the model does not look inside it.
 */
module Users {
  import opened Wrappers
  import Seqs
  import opened Schema

  /**
   A password hasher: `hash` yields a digest, or `None` when it refuses the
   password; `verify` tells whether a password matches a stored digest.
   */
  datatype Hasher = Hasher(hash: string -> Option<Digest>, verify: (Digest, string) -> bool)

  /** A password always matches its own digest. */
  ghost predicate Sound(h: Hasher) {
    forall p :: h.hash(p).Some? ==> h.verify(h.hash(p).value, p)
  }

  /** A digest matches no password but the one it was made from. */
  ghost predicate Binding(h: Hasher) {
    forall p, q :: h.hash(p).Some? && h.verify(h.hash(p).value, q) ==> q == p
  }

  /** The column a lookup compares against: `ID`, `Email` and `Username` are 0, 1 and 2; any other value is rejected. */
  const ID: int := 0
  const Email: int := 1
  const Username: int := 2

  /** The value a lookup compares with: an integer for ids, a text for email and username. */
  datatype LookupValue = IntValue(n: int) | TextValue(s: string)

  predicate UsernameTaken(db: Db, username: string) {
    exists u :: u in db.users && u.username == username
  }

  predicate EmailTaken(db: Db, email: string) {
    exists u :: u in db.users && u.email == email
  }

  /**
   Hashes the password and inserts the user. A taken username is
   DuplicateUsername, checked before the email, which is DuplicateEmail; the
   plaintext is never stored.
   */
  function Create(db: Db, h: Hasher, username: string, email: string, password: string): (r: Tx<()>)
    ensures r.result.Err? ==> r.db == db
    ensures h.hash(password).None? ==> r.result == Err(Other(HashFailed))
    ensures h.hash(password).Some? ==>
      && (r.result == Err(DuplicateUsername) <==> UsernameTaken(db, username))
      && (r.result == Err(DuplicateEmail) <==> !UsernameTaken(db, username) && EmailTaken(db, email))
    ensures r.result.Ok? <==> h.hash(password).Some? && !UsernameTaken(db, username) && !EmailTaken(db, email)
    ensures r.result.Ok? ==>
      && r.db.users == db.users + [UserRow(db.nextUserId, username, email, h.hash(password).value)]
      && r.db == db.(users := r.db.users, nextUserId := db.nextUserId + 1, clock := db.clock + 1)
  {
    match h.hash(password)
    case None => Tx(db, Err(Other(HashFailed)))
    case Some(digest) =>
      if UsernameTaken(db, username) then Tx(db, Err(DuplicateUsername))
      else if EmailTaken(db, email) then Tx(db, Err(DuplicateEmail))
      else
        Tx(db.(users := db.users + [UserRow(db.nextUserId, username, email, digest)],
               nextUserId := db.nextUserId + 1, clock := db.clock + 1),
           Ok(()))
  }

  /**
   Whether some user has the given id, email or username. An unknown field
   is an error; a value of the other kind than the column matches nothing.
   */
  function Exists(db: Db, field: int, value: LookupValue): (r: Result<bool>)
    ensures r.Err? <==> field !in {ID, Email, Username}
    ensures r.Err? ==> r.error == Other(BadLookupField)
    ensures field == ID && value.IntValue? ==> r == Ok(HasUser(db, value.n))
    ensures field == Email && value.TextValue? ==> r == Ok(EmailTaken(db, value.s))
    ensures field == Username && value.TextValue? ==> r == Ok(UsernameTaken(db, value.s))
    ensures r.Ok? && r.value ==> exists u :: u in db.users && Matches(u, field, value)
    ensures r.Ok? && !r.value ==> forall u :: u in db.users ==> !Matches(u, field, value)
  {
    if field !in {ID, Email, Username} then Err(Other(BadLookupField))
    else Ok(exists u :: u in db.users && Matches(u, field, value))
  }

  /** The WHERE clause of a lookup. */
  predicate Matches(u: UserRow, field: int, value: LookupValue) {
    match value
    case IntValue(n) => field == ID && u.id == n
    case TextValue(s) => (field == Email && u.email == s) || (field == Username && u.username == s)
  }

  /**
   The id of the user with this username when the password matches the
   stored digest; an unknown username and a wrong password are both
   InvalidCredentials.
   */
  function Authenticate(db: Db, h: Hasher, username: string, password: string): (r: Result<int>)
    ensures r.Err? ==> r.error == InvalidCredentials
    ensures !UsernameTaken(db, username) ==> r == Err(InvalidCredentials)
    ensures r.Ok? ==> exists u :: u in db.users && u.username == username && u.id == r.value && h.verify(u.password, password)
  {
    match Seqs.Find(db.users, (u: UserRow) => u.username == username)
    case None => Err(InvalidCredentials)
    case Some(u) => if h.verify(u.password, password) then Ok(u.id) else Err(InvalidCredentials)
  }

  /** With usernames unique, authentication is exactly the password check against that user's digest. */
  lemma AuthenticateChecksPassword(db: Db, h: Hasher, u: UserRow, password: string)
    requires UsersWf(db) && u in db.users
    ensures Authenticate(db, h, u.username, password)
         == if h.verify(u.password, password) then Ok(u.id) else Err(InvalidCredentials)
  {
    forall y | y in db.users && y.username == u.username
      ensures y == u
    {
      var i :| 0 <= i < |db.users| && db.users[i] == y;
      var j :| 0 <= j < |db.users| && db.users[j] == u;
    }
    Seqs.FindUnique(db.users, (x: UserRow) => x.username == u.username, u);
  }

  lemma CreatePreservesWf(db: Db, h: Hasher, username: string, email: string, password: string)
    requires Wf(db)
    ensures Wf(Create(db, h, username, email, password).db)
  {
    var r := Create(db, h, username, email, password);
    if r.result.Ok? {
      Seqs.PairwiseAppend(db.users, r.db.users[|db.users|], UserOrder);
      assert forall l :: l in db.userBooks ==> HasUser(r.db, l.userId) by {
        forall l | l in db.userBooks
          ensures HasUser(r.db, l.userId)
        {
          var u :| u in db.users && u.id == l.userId;
          assert u in r.db.users;
        }
      }
    }
  }

  /** A registered user can log in with the password they registered with, and gets their new id. */
  lemma CreateThenAuthenticate(db: Db, h: Hasher, username: string, email: string, password: string)
    requires Wf(db) && Sound(h)
    ensures var r := Create(db, h, username, email, password);
      r.result.Ok? ==> Authenticate(r.db, h, username, password) == Ok(db.nextUserId)
  {
    var r := Create(db, h, username, email, password);
    if r.result.Ok? {
      CreatePreservesWf(db, h, username, email, password);
      AuthenticateChecksPassword(r.db, h, r.db.users[|db.users|], password);
    }
  }

  /** With a binding hasher, any other password is refused for a freshly registered user. */
  lemma WrongPasswordRejected(db: Db, h: Hasher, username: string, email: string, password: string, guess: string)
    requires Wf(db) && Binding(h) && guess != password
    ensures var r := Create(db, h, username, email, password);
      r.result.Ok? ==> Authenticate(r.db, h, username, guess) == Err(InvalidCredentials)
  {
    var r := Create(db, h, username, email, password);
    if r.result.Ok? {
      CreatePreservesWf(db, h, username, email, password);
      AuthenticateChecksPassword(r.db, h, r.db.users[|db.users|], guess);
    }
  }

  /** After registering, the new id, email and username are all reported as taken. */
  lemma ExistsAfterCreate(db: Db, h: Hasher, username: string, email: string, password: string)
    ensures var r := Create(db, h, username, email, password);
      r.result.Ok? ==>
        && Exists(r.db, ID, IntValue(db.nextUserId)) == Ok(true)
        && Exists(r.db, Email, TextValue(email)) == Ok(true)
        && Exists(r.db, Username, TextValue(username)) == Ok(true)
  {
    var r := Create(db, h, username, email, password);
    if r.result.Ok? {
      assert r.db.users[|db.users|] in r.db.users;
    }
  }

  /** A second registration with a taken username or email fails and changes nothing. */
  lemma DuplicateRegistrationRejected(db: Db, h: Hasher, username: string, email: string, password: string,
                                      email2: string, username2: string, password2: string)
    requires h.hash(password2).Some?
    ensures var r := Create(db, h, username, email, password);
      r.result.Ok? ==>
        && Create(r.db, h, username, email2, password2) == Tx(r.db, Err(DuplicateUsername))
        && (username2 != username ==> Create(r.db, h, username2, email, password2).result.Err?)
        && ((forall u :: u in r.db.users ==> u.username != username2) ==>
              Create(r.db, h, username2, email, password2) == Tx(r.db, Err(DuplicateEmail)))
  {
    var r := Create(db, h, username, email, password);
    if r.result.Ok? {
      assert r.db.users[|db.users|] in r.db.users;
    }
  }
}
