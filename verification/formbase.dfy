/**
 The error accumulator every form embeds: a map of field errors in which the
 first message recorded for a key wins, and an ordered list of non-field
 errors that only grows. A Go nil map or slice is the empty one here.
 */
module FormBase {
  import opened Wrappers

  datatype Base = Base(nonFieldErrors: seq<string>, fieldErrors: map<string, string>)

  /** The accumulator of a freshly decoded form. */
  const Empty: Base := Base([], map[])

  /** Valid: neither kind of error has been recorded. */
  predicate Valid(b: Base) {
    |b.fieldErrors| == 0 && |b.nonFieldErrors| == 0
  }

  /** A single field error or a single non-field error is enough to make a form invalid. */
  lemma InvalidWithAnyError(b: Base, key: string)
    ensures Valid(b) <==> (forall k :: k !in b.fieldErrors) && b.nonFieldErrors == []
    ensures key in b.fieldErrors ==> !Valid(b)
    ensures |b.nonFieldErrors| > 0 ==> !Valid(b)
  {
    if !(forall k :: k !in b.fieldErrors) {
      var k :| k in b.fieldErrors;
      assert k in b.fieldErrors.Keys;
    }
    if |b.fieldErrors| != 0 {
      var k :| k in b.fieldErrors.Keys;
    }
  }

  /** AddFieldError: records `message` for `key` unless `key` already has a message. */
  function AddFieldError(b: Base, key: string, message: string): (r: Base)
    ensures key in r.fieldErrors
    ensures key in b.fieldErrors ==> r.fieldErrors[key] == b.fieldErrors[key]
    ensures key !in b.fieldErrors ==> r.fieldErrors[key] == message
    ensures forall k :: k != key ==> (k in r.fieldErrors <==> k in b.fieldErrors)
    ensures forall k :: k != key && k in b.fieldErrors ==> r.fieldErrors[k] == b.fieldErrors[k]
    ensures r.nonFieldErrors == b.nonFieldErrors
  {
    if key in b.fieldErrors then b else b.(fieldErrors := b.fieldErrors[key := message])
  }

  /** AddNonFieldError: appends `message`, keeping the earlier messages in order. */
  function AddNonFieldError(b: Base, message: string): (r: Base)
    ensures |r.nonFieldErrors| == |b.nonFieldErrors| + 1
    ensures r.nonFieldErrors[..|b.nonFieldErrors|] == b.nonFieldErrors
    ensures r.nonFieldErrors[|b.nonFieldErrors|] == message
    ensures r.fieldErrors == b.fieldErrors
  {
    b.(nonFieldErrors := b.nonFieldErrors + [message])
  }

  /** CheckField: a field error for `key` when the check `ok` failed. */
  function CheckField(b: Base, ok: bool, key: string, message: string): (r: Base)
    ensures ok ==> r == b
    ensures !ok ==> r == AddFieldError(b, key, message)
  {
    if !ok then AddFieldError(b, key, message) else b
  }

  /** The field-error map with one entry for `key` when there is a problem, none otherwise. */
  function Entry(key: string, problem: Option<string>): map<string, string> {
    if problem.Some? then map[key := problem.value] else map[]
  }

  /** A failed check is the union of its entry under the errors already recorded, which win. */
  lemma CheckFieldUnion(b: Base, ok: bool, key: string, message: string)
    ensures CheckField(b, ok, key, message).fieldErrors
      == Entry(key, if ok then None else Some(message)) + b.fieldErrors
  {
    var r := CheckField(b, ok, key, message).fieldErrors;
    var u := Entry(key, if ok then None else Some(message)) + b.fieldErrors;
    assert r.Keys == u.Keys;
  }

  /** Two checks of one key in a row record the message of the first that failed. */
  lemma TwoChecksOneKey(b: Base, ok1: bool, m1: string, ok2: bool, m2: string, key: string)
    ensures CheckField(CheckField(b, ok1, key, m1), ok2, key, m2).fieldErrors
      == Entry(key, if !ok1 then Some(m1) else if !ok2 then Some(m2) else None) + b.fieldErrors
  {
    CheckFieldUnion(b, ok1, key, m1);
    CheckFieldUnion(CheckField(b, ok1, key, m1), ok2, key, m2);
  }

  /** A second message for a key that already has one is dropped: the first message wins. */
  lemma FirstFieldErrorWins(b: Base, key: string, first: string, second: string)
    requires key !in b.fieldErrors
    ensures AddFieldError(AddFieldError(b, key, first), key, second) == AddFieldError(b, key, first)
    ensures AddFieldError(AddFieldError(b, key, first), key, second).fieldErrors[key] == first
  {
  }

  /** Adding the same field error twice is the same as adding it once. */
  lemma AddFieldErrorIdempotent(b: Base, key: string, message: string)
    ensures AddFieldError(AddFieldError(b, key, message), key, message) == AddFieldError(b, key, message)
  {
  }

  /** Field errors for different keys can be recorded in either order. */
  lemma AddFieldErrorCommutes(b: Base, k1: string, m1: string, k2: string, m2: string)
    requires k1 != k2
    ensures AddFieldError(AddFieldError(b, k1, m1), k2, m2) == AddFieldError(AddFieldError(b, k2, m2), k1, m1)
  {
    var x := AddFieldError(AddFieldError(b, k1, m1), k2, m2);
    var y := AddFieldError(AddFieldError(b, k2, m2), k1, m1);
    assert x.fieldErrors.Keys == y.fieldErrors.Keys;
    assert forall k :: k in x.fieldErrors ==> x.fieldErrors[k] == y.fieldErrors[k];
  }

  /** One call on the accumulator. */
  datatype Call =
    | FieldError(key: string, message: string)
    | NonFieldError(message: string)
    | Check(ok: bool, key: string, message: string)

  function Apply(b: Base, c: Call): Base {
    match c
    case FieldError(k, m) => AddFieldError(b, k, m)
    case NonFieldError(m) => AddNonFieldError(b, m)
    case Check(ok, k, m) => CheckField(b, ok, k, m)
  }

  /** The accumulator after a sequence of calls, first call first. */
  function ApplyAll(b: Base, calls: seq<Call>): Base
    decreases |calls|
  {
    if |calls| == 0 then b else ApplyAll(Apply(b, calls[0]), calls[1..])
  }

  /** `later` keeps every error of `earlier`: the same message per key, and the non-field list as a prefix. */
  ghost predicate Keeps(earlier: Base, later: Base) {
    && (forall k :: k in earlier.fieldErrors ==> k in later.fieldErrors && later.fieldErrors[k] == earlier.fieldErrors[k])
    && earlier.nonFieldErrors <= later.nonFieldErrors
  }

  /** No sequence of calls removes or rewrites an error. */
  lemma {:induction false} ApplyAllKeeps(b: Base, calls: seq<Call>)
    ensures Keeps(b, ApplyAll(b, calls))
    decreases |calls|
  {
    if |calls| > 0 {
      var b1 := Apply(b, calls[0]);
      assert Keeps(b, b1);
      ApplyAllKeeps(b1, calls[1..]);
    }
  }

  /** Once a form is invalid, no further call makes it valid again. */
  lemma InvalidStaysInvalid(b: Base, calls: seq<Call>)
    requires !Valid(b)
    ensures !Valid(ApplyAll(b, calls))
  {
    ApplyAllKeeps(b, calls);
    var r := ApplyAll(b, calls);
    if |b.fieldErrors| != 0 {
      var k :| k in b.fieldErrors.Keys;
      assert k in r.fieldErrors.Keys;
    } else {
      assert |b.nonFieldErrors| <= |r.nonFieldErrors|;
    }
  }
}
