/**
 The note repository (models/note.go). Every statement but the insert is
 scoped to the calling user (`WHERE user_id = ?`), so another user's note
 behaves exactly like a missing one.
 */
module Notes {
  import opened Wrappers
  import Seqs
  import opened Schema

  /** The note `noteId` belongs to `userId`: the WHERE clause of Retrieve, Update and Delete. */
  predicate Owned(n: NoteRow, userId: int, noteId: int) {
    n.userId == userId && n.id == noteId
  }

  predicate HasNote(db: Db, userId: int, noteId: int) {
    exists n :: n in db.notes && Owned(n, userId, noteId)
  }

  /** Inserts the note, stamped with the clock, and returns its new id. */
  function Create(db: Db, userId: int, bookId: int, noteText: string, pageNumber: int): (r: Tx<int>)
    ensures r.result == Ok(db.nextNoteId)
    ensures r.db.notes == db.notes + [NoteRow(db.nextNoteId, userId, bookId, noteText, pageNumber, db.clock, db.clock)]
    ensures r.db == db.(notes := r.db.notes, nextNoteId := db.nextNoteId + 1, clock := db.clock + 1)
  {
    var id := db.nextNoteId;
    Tx(db.(notes := db.notes + [NoteRow(id, userId, bookId, noteText, pageNumber, db.clock, db.clock)],
           nextNoteId := id + 1, clock := db.clock + 1),
       Ok(id))
  }

  /** The caller's note with the given id; NoRecord when the caller has no such note. */
  function Retrieve(db: Db, userId: int, noteId: int): (r: Result<NoteRow>)
    ensures r.Ok? <==> HasNote(db, userId, noteId)
    ensures r.Ok? ==> r.value in db.notes && Owned(r.value, userId, noteId)
    ensures r.Err? ==> r.error == NoRecord
  {
    match Seqs.Find(db.notes, (n: NoteRow) => Owned(n, userId, noteId))
    case None => Err(NoRecord)
    case Some(n) => Ok(n)
  }

  /** Replaces text and page of the caller's note; NoRecord when no row matched. */
  function Update(db: Db, userId: int, noteId: int, noteText: string, pageNumber: int): (r: Tx<()>)
    ensures r.result.Ok? <==> HasNote(db, userId, noteId)
    ensures r.result.Err? ==> r == Tx(db, Err(NoRecord))
    ensures r.result.Ok? ==>
      && |r.db.notes| == |db.notes|
      && (forall i :: 0 <= i < |db.notes| ==>
            r.db.notes[i] == if Owned(db.notes[i], userId, noteId)
                             then db.notes[i].(noteText := noteText, pageNumber := pageNumber)
                             else db.notes[i])
      && r.db == db.(notes := r.db.notes)
  {
    if !HasNote(db, userId, noteId) then Tx(db, Err(NoRecord))
    else
      var notes := seq(|db.notes|, i requires 0 <= i < |db.notes| =>
        if Owned(db.notes[i], userId, noteId) then db.notes[i].(noteText := noteText, pageNumber := pageNumber) else db.notes[i]);
      Tx(db.(notes := notes), Ok(()))
  }

  /** Deletes the caller's note; a delete that matched no row is an unclassified error. */
  function Delete(db: Db, userId: int, noteId: int): (r: Tx<()>)
    ensures r.result.Ok? <==> HasNote(db, userId, noteId)
    ensures r.result.Err? ==> r == Tx(db, Err(Other(NotFound)))
    ensures r.result.Ok? ==>
      && !HasNote(r.db, userId, noteId)
      && (forall n :: n in r.db.notes <==> n in db.notes && !Owned(n, userId, noteId))
      && r.db == db.(notes := r.db.notes)
  {
    if !HasNote(db, userId, noteId) then Tx(db, Err(Other(NotFound)))
    else Tx(db.(notes := Seqs.Filter(db.notes, (n: NoteRow) => !Owned(n, userId, noteId))), Ok(()))
  }

  /** The caller's notes on one book; SQL gives no order, the model keeps table order. */
  function List(db: Db, bookId: int, userId: int): (r: seq<NoteRow>)
    ensures forall n :: n in r <==> n in db.notes && n.bookId == bookId && n.userId == userId
  {
    Seqs.Filter(db.notes, (n: NoteRow) => n.bookId == bookId && n.userId == userId)
  }

  predicate WrittenBy(n: NoteRow, userId: int) {
    n.userId == userId
  }

  /** How many notes the user has written: never more than the table holds, and zero exactly when the user wrote none. */
  function Count(db: Db, userId: int): (r: nat)
    ensures r == |set i | 0 <= i < |db.notes| && db.notes[i].userId == userId|
    ensures r <= |db.notes|
    ensures r == 0 <==> forall x :: x in db.notes ==> !WrittenBy(x, userId)
  {
    var mine := Seqs.Filter(db.notes, (n: NoteRow) => WrittenBy(n, userId));
    Seqs.FilterCounts(db.notes, (n: NoteRow) => WrittenBy(n, userId));
    assert Seqs.Hits(db.notes, (n: NoteRow) => WrittenBy(n, userId)) == set i | 0 <= i < |db.notes| && db.notes[i].userId == userId;
    assert |mine| > 0 ==> mine[0] in mine;
    |mine|
  }

  /** The database as one user sees it: only that user's notes. */
  function OwnView(db: Db, userId: int): Db {
    db.(notes := Seqs.Filter(db.notes, (n: NoteRow) => WrittenBy(n, userId)))
  }

  /** Another user's notes cannot be seen, changed or deleted: every scoped operation answers as if they were absent. */
  lemma OthersNotesInvisible(db: Db, userId: int, noteId: int, bookId: int, text: string, page: int)
    ensures Retrieve(db, userId, noteId) == Retrieve(OwnView(db, userId), userId, noteId)
    ensures Update(db, userId, noteId, text, page).result == Update(OwnView(db, userId), userId, noteId, text, page).result
    ensures Delete(db, userId, noteId).result == Delete(OwnView(db, userId), userId, noteId).result
    ensures List(db, bookId, userId) == List(OwnView(db, userId), bookId, userId)
    ensures Count(db, userId) == Count(OwnView(db, userId), userId)
  {
    var keep := (n: NoteRow) => WrittenBy(n, userId);
    Seqs.FindFilter(db.notes, keep, (n: NoteRow) => Owned(n, userId, noteId));
    ListOfOwn(db.notes, keep, bookId, userId);
    Seqs.FilterAll(Seqs.Filter(db.notes, keep), keep);
  }

  /** Filtering the user's notes by book sees through a previous filter to the user's notes. */
  lemma {:induction false} ListOfOwn(s: seq<NoteRow>, keep: NoteRow -> bool, bookId: int, userId: int)
    requires forall n :: keep(n) <==> WrittenBy(n, userId)
    ensures Seqs.Filter(Seqs.Filter(s, keep), (n: NoteRow) => n.bookId == bookId && n.userId == userId)
         == Seqs.Filter(s, (n: NoteRow) => n.bookId == bookId && n.userId == userId)
    decreases |s|
  {
    if |s| > 0 {
      ListOfOwn(s[1..], keep, bookId, userId);
      if keep(s[0]) {
        assert ([s[0]] + Seqs.Filter(s[1..], keep))[1..] == Seqs.Filter(s[1..], keep);
      }
    }
  }

  lemma CreatePreservesWf(db: Db, userId: int, bookId: int, noteText: string, pageNumber: int)
    requires Wf(db)
    ensures Wf(Create(db, userId, bookId, noteText, pageNumber).db)
  {
    var r := Create(db, userId, bookId, noteText, pageNumber);
    Seqs.PairwiseAppend(db.notes, r.db.notes[|db.notes|], NoteOrder);
  }

  /** A created note reads back, for its author, with what it was created with. */
  lemma CreateThenRetrieve(db: Db, userId: int, bookId: int, noteText: string, pageNumber: int)
    requires Wf(db)
    ensures var r := Create(db, userId, bookId, noteText, pageNumber);
      Retrieve(r.db, userId, r.result.value) == Ok(NoteRow(r.result.value, userId, bookId, noteText, pageNumber, db.clock, db.clock))
  {
    var r := Create(db, userId, bookId, noteText, pageNumber);
    var row := r.db.notes[|db.notes|];
    Seqs.FindUnique(r.db.notes, (n: NoteRow) => Owned(n, userId, r.result.value), row);
  }

  /** Creating a note adds one to its author's count and leaves every other user's count alone. */
  lemma CountAfterCreate(db: Db, userId: int, bookId: int, noteText: string, pageNumber: int, who: int)
    ensures Count(Create(db, userId, bookId, noteText, pageNumber).db, who) == Count(db, who) + (if who == userId then 1 else 0)
  {
    var r := Create(db, userId, bookId, noteText, pageNumber);
    Seqs.FilterAppend(db.notes, r.db.notes[|db.notes|], (n: NoteRow) => WrittenBy(n, who));
  }

  lemma UpdatePreservesWf(db: Db, userId: int, noteId: int, noteText: string, pageNumber: int)
    requires Wf(db)
    ensures Wf(Update(db, userId, noteId, noteText, pageNumber).db)
  {
    var r := Update(db, userId, noteId, noteText, pageNumber);
    if r.result.Ok? {
      var ns := r.db.notes;
      forall i, j | 0 <= i < j < |ns|
        ensures NoteOrder(ns[i], ns[j])
      {
        assert NoteOrder(db.notes[i], db.notes[j]);
      }
      forall n | n in ns
        ensures 1 <= n.id < r.db.nextNoteId && n.createdAt < r.db.clock
      {
        var i :| 0 <= i < |ns| && ns[i] == n;
        assert db.notes[i] in db.notes;
      }
    }
  }

  /** After an update the note reads back with the new text and page, and its timestamps as they were. */
  lemma UpdateThenRetrieve(db: Db, userId: int, noteId: int, noteText: string, pageNumber: int)
    requires Wf(db)
    ensures var r := Update(db, userId, noteId, noteText, pageNumber);
      r.result.Ok? ==>
        && Retrieve(r.db, userId, noteId).Ok?
        && Retrieve(r.db, userId, noteId).value.noteText == noteText
        && Retrieve(r.db, userId, noteId).value.pageNumber == pageNumber
        && Retrieve(r.db, userId, noteId).value == Retrieve(db, userId, noteId).value.(noteText := noteText, pageNumber := pageNumber)
  {
    var r := Update(db, userId, noteId, noteText, pageNumber);
    if r.result.Ok? {
      UpdatePreservesWf(db, userId, noteId, noteText, pageNumber);
      var old_ := Retrieve(db, userId, noteId).value;
      var k :| 0 <= k < |db.notes| && db.notes[k] == old_;
      forall n | n in r.db.notes && Owned(n, userId, noteId)
        ensures n == r.db.notes[k]
      {
        NoteIdUnique(r.db, n, r.db.notes[k]);
      }
      Seqs.FindUnique(r.db.notes, (n: NoteRow) => Owned(n, userId, noteId), r.db.notes[k]);
    }
  }

  lemma DeletePreservesWf(db: Db, userId: int, noteId: int)
    requires Wf(db)
    ensures Wf(Delete(db, userId, noteId).db)
  {
    var r := Delete(db, userId, noteId);
    if r.result.Ok? {
      Seqs.FilterPairwise(db.notes, (n: NoteRow) => !Owned(n, userId, noteId), NoteOrder);
    }
  }

  /** A deleted note is gone for good: reading it again is NoRecord. */
  lemma DeleteThenRetrieve(db: Db, userId: int, noteId: int)
    ensures Delete(db, userId, noteId).result.Ok? ==> Retrieve(Delete(db, userId, noteId).db, userId, noteId) == Err(NoRecord)
  {
  }
}
