/** The note collection kept by `NotesApp`: saving a note from the editor
    (create and edit paths) and deleting one. Identifiers and clock readings are
    parameters; the collection is a `seq<Note>`, newest-created first. */
module Notes {
  import opened Wrappers
  import opened Text
  import Seqs

  /** A stored note. Timestamps are milliseconds since the epoch; the
      application keeps them as ISO-8601 strings of the same instants. */
  datatype Note = Note(id: string, title: string, content: string, createdAt: int, updatedAt: int)

  /** The validated title and content a save writes. */
  datatype Draft = Draft(title: string, content: string)

  /** The result of pressing Save: either the alert path, which changes
      nothing, or the new collection. */
  datatype SaveOutcome = Rejected | Saved(notes: seq<Note>)

  /** The title given to a note whose trimmed title is empty. */
  const UntitledTitle: string := "Untitled Note"

  /** Reads the editor's two fields: both are trimmed, the save is refused
      when both are empty, and an empty title is replaced by the default. */
  function Validate(rawTitle: string, rawContent: string): (d: Option<Draft>)
    ensures d.None? <==> AllSpace(rawTitle) && AllSpace(rawContent)
    ensures d.Some? ==> d.value.content == Trim(rawContent)
    ensures d.Some? ==> d.value.title == (if AllSpace(rawTitle) then UntitledTitle else Trim(rawTitle))
    ensures d.Some? ==> d.value.title != "" && Trim(d.value.title) == d.value.title
  {
    TrimEmptyIffAllSpace(rawTitle);
    TrimEmptyIffAllSpace(rawContent);
    var title := Trim(rawTitle);
    var content := Trim(rawContent);
    if title == "" && content == "" then None
    else
      TrimIdempotent(rawTitle);
      TrimKeepsTrimmed(UntitledTitle);
      Some(Draft(if title == "" then UntitledTitle else title, content))
  }

  /** Whether some note carries `id`. */
  predicate HasId(notes: seq<Note>, id: string) {
    exists k :: 0 <= k < |notes| && notes[k].id == id
  }

  /** `i` is the first position holding a note with `id`. */
  predicate FirstWithId(notes: seq<Note>, id: string, i: int) {
    0 <= i < |notes| && notes[i].id == id && forall k :: 0 <= k < i ==> notes[k].id != id
  }

  /** `notes.findIndex(n => n.id === id)`, with `None` for the -1 result. */
  function FindIndex(notes: seq<Note>, id: string): (r: Option<nat>)
    ensures r.Some? ==> FirstWithId(notes, id, r.value)
    ensures r.None? <==> !HasId(notes, id)
  {
    if |notes| == 0 then None
    else if notes[0].id == id then Some(0)
    else
      match FindIndex(notes[1..], id)
      case None =>
        assert forall k :: 1 <= k < |notes| ==> notes[k] == notes[1..][k - 1];
        None
      case Some(i) => Some(i + 1)
  }

  /** `{ ...note, ...noteData }`: the draft's fields and both timestamps
      overwrite the note's, and the id is kept. */
  function Overwrite(n: Note, d: Draft, createdAt: int, updatedAt: int): Note {
    n.(title := d.title, content := d.content, createdAt := createdAt, updatedAt := updatedAt)
  }

  /** The create path: the new note is put in front (`unshift`). */
  function Create(notes: seq<Note>, d: Draft, newId: string, createdAt: int, updatedAt: int): (r: seq<Note>)
    ensures |r| == |notes| + 1
    ensures r[0] == Note(newId, d.title, d.content, createdAt, updatedAt)
    ensures forall k :: 0 <= k < |notes| ==> r[k + 1] == notes[k]
  {
    [Note(newId, d.title, d.content, createdAt, updatedAt)] + notes
  }

  /** The edit path: the first note with `id` is overwritten where it stands.
      When no note has `id`, `findIndex` yields -1 and the assignment lands on
      an array property that no later read sees, so the collection is unchanged. */
  function Edit(notes: seq<Note>, id: string, d: Draft, createdAt: int, updatedAt: int): (r: seq<Note>)
    ensures |r| == |notes|
    ensures forall k :: 0 <= k < |notes| ==> r[k].id == notes[k].id
    ensures forall k :: 0 <= k < |notes| && FirstWithId(notes, id, k) ==>
              r[k] == Note(id, d.title, d.content, createdAt, updatedAt)
    ensures forall k :: 0 <= k < |notes| && !FirstWithId(notes, id, k) ==> r[k] == notes[k]
    ensures !HasId(notes, id) ==> r == notes
  {
    match FindIndex(notes, id)
    case None => notes
    case Some(i) => notes[i := Overwrite(notes[i], d, createdAt, updatedAt)]
  }

  /** JavaScript truthiness of `currentEditId`: a missing or empty id selects
      the create path. */
  predicate IsEditing(editId: Option<string>) {
    editId.Some? && editId.value != ""
  }

  /** `saveNote`, without the dialog and storage side effects. `newId` stands
      for `Date.now().toString()`; the two timestamps are the two separate
      clock readings taken for `createdAt` and `updatedAt`. */
  function Save(notes: seq<Note>, editId: Option<string>, rawTitle: string, rawContent: string,
                newId: string, createdAt: int, updatedAt: int): (r: SaveOutcome)
    ensures r.Rejected? <==> AllSpace(rawTitle) && AllSpace(rawContent)
    ensures r.Saved? && !IsEditing(editId) ==> |r.notes| == |notes| + 1 && r.notes[1..] == notes
    ensures r.Saved? && IsEditing(editId) ==> |r.notes| == |notes|
  {
    match Validate(rawTitle, rawContent)
    case None => Rejected
    case Some(d) =>
      if IsEditing(editId) then Saved(Edit(notes, editId.value, d, createdAt, updatedAt))
      else
        var r := Create(notes, d, newId, createdAt, updatedAt);
        assert r[1..] == notes;
        Saved(r)
  }

  /** Creating a note puts it first with the trimmed fields, the default title
      when the title is blank, and both timestamps; the old notes follow. */
  lemma SaveCreates(notes: seq<Note>, editId: Option<string>, rawTitle: string, rawContent: string,
                    newId: string, createdAt: int, updatedAt: int)
    requires !IsEditing(editId)
    requires !(AllSpace(rawTitle) && AllSpace(rawContent))
    ensures var r := Save(notes, editId, rawTitle, rawContent, newId, createdAt, updatedAt);
      && r.Saved?
      && r.notes == [Note(newId, if AllSpace(rawTitle) then UntitledTitle else Trim(rawTitle),
                          Trim(rawContent), createdAt, updatedAt)] + notes
  {
  }

  /** Editing overwrites title, content and both timestamps of the first note
      with the id, keeps its id and position, and touches no other note. */
  lemma SaveEdits(notes: seq<Note>, id: string, rawTitle: string, rawContent: string,
                  newId: string, createdAt: int, updatedAt: int, i: nat)
    requires id != ""
    requires !(AllSpace(rawTitle) && AllSpace(rawContent))
    requires FirstWithId(notes, id, i)
    ensures var r := Save(notes, Some(id), rawTitle, rawContent, newId, createdAt, updatedAt);
      && r.Saved?
      && |r.notes| == |notes|
      && r.notes[i] == Note(id, if AllSpace(rawTitle) then UntitledTitle else Trim(rawTitle),
                            Trim(rawContent), createdAt, updatedAt)
      && (forall k :: 0 <= k < |notes| && k != i ==> r.notes[k] == notes[k])
  {
  }

  /** Saving with an edit target no note carries leaves the notes as they are. */
  lemma SaveMissingTarget(notes: seq<Note>, id: string, rawTitle: string, rawContent: string,
                          newId: string, createdAt: int, updatedAt: int)
    requires id != ""
    requires !(AllSpace(rawTitle) && AllSpace(rawContent))
    requires !HasId(notes, id)
    ensures Save(notes, Some(id), rawTitle, rawContent, newId, createdAt, updatedAt) == Saved(notes)
  {
  }

  /** `deleteNote` once confirmed: `notes.filter(n => n.id !== id)`. */
  function Delete(notes: seq<Note>, id: string): (r: seq<Note>)
    ensures Seqs.IsSubsequence(r, notes)
    ensures forall n: Note :: n in r <==> n in notes && n.id != id
    ensures forall n: Note :: n.id != id ==> multiset(r)[n] == multiset(notes)[n]
    ensures !HasId(r, id)
    ensures !HasId(notes, id) ==> r == notes
  {
    var keep := (n: Note) => n.id != id;
    var r := Seqs.Filter(notes, keep);
    assert !HasId(notes, id) ==> r == notes by {
      if !HasId(notes, id) {
        Seqs.FilterKeepsAll(notes, keep);
      }
    }
    forall n | n in notes && n.id != id
      ensures n in r
    {
      assert multiset(r)[n] == multiset(notes)[n] > 0;
    }
    assert forall k :: 0 <= k < |r| ==> r[k] in r;
    r
  }

  /** No two notes share an id. */
  predicate UniqueIds(notes: seq<Note>) {
    forall i, j :: 0 <= i < j < |notes| ==> notes[i].id != notes[j].id
  }

  /** A note created under an id not yet in use keeps the ids unique. */
  lemma CreateKeepsIdsUnique(notes: seq<Note>, d: Draft, newId: string, createdAt: int, updatedAt: int)
    requires UniqueIds(notes)
    requires !HasId(notes, newId)
    ensures UniqueIds(Create(notes, d, newId, createdAt, updatedAt))
  {
  }

  /** Editing keeps the ids position by position, so it keeps them unique. */
  lemma EditKeepsIdsUnique(notes: seq<Note>, id: string, d: Draft, createdAt: int, updatedAt: int)
    requires UniqueIds(notes)
    ensures UniqueIds(Edit(notes, id, d, createdAt, updatedAt))
  {
  }

  /** Deleting keeps the ids unique, and removes exactly one note when the id
      is present. */
  lemma {:induction false} DeleteRemovesOne(notes: seq<Note>, id: string)
    requires UniqueIds(notes)
    ensures UniqueIds(Delete(notes, id))
    ensures HasId(notes, id) ==> |Delete(notes, id)| == |notes| - 1
  {
    var keep := (n: Note) => n.id != id;
    Seqs.FilterLength(notes, keep);
    UniqueCount(notes, id);
    SubsequenceKeepsUnique(Delete(notes, id), notes);
  }

  lemma {:induction false} UniqueCount(notes: seq<Note>, id: string)
    requires UniqueIds(notes)
    ensures Seqs.Count(notes, (n: Note) => n.id != id) == if HasId(notes, id) then |notes| - 1 else |notes|
  {
    if |notes| > 0 {
      var t := notes[1..];
      UniqueCount(t, id);
      if notes[0].id != id {
        assert HasId(notes, id) <==> HasId(t, id) by {
          if HasId(notes, id) {
            var k :| 0 <= k < |notes| && notes[k].id == id;
            assert t[k - 1].id == id;
          }
          if HasId(t, id) {
            var k :| 0 <= k < |t| && t[k].id == id;
            assert notes[k + 1].id == id;
          }
        }
      }
    }
  }

  lemma {:induction false} SubsequenceKeepsUnique(a: seq<Note>, b: seq<Note>)
    requires Seqs.IsSubsequence(a, b)
    requires UniqueIds(b)
    ensures UniqueIds(a)
    decreases |b|
  {
    if |a| > 0 {
      assert |b| > 0;
      var t := b[1..];
      assert UniqueIds(t) by {
        forall i, j | 0 <= i < j < |t| ensures t[i].id != t[j].id {
          assert t[i] == b[i + 1] && t[j] == b[j + 1];
        }
      }
      if a[0] == b[0] && Seqs.IsSubsequence(a[1..], t) {
        SubsequenceKeepsUnique(a[1..], t);
        Seqs.SubsequenceMultiset(a[1..], t);
        forall j | 0 < j < |a| ensures a[0].id != a[j].id {
          assert a[j] == a[1..][j - 1];
          assert a[j] in multiset(t);
          var k :| 0 <= k < |t| && t[k] == a[j];
          assert b[k + 1] == a[j];
        }
        forall i, j | 0 <= i < j < |a| ensures a[i].id != a[j].id {
          if i > 0 {
            assert a[i] == a[1..][i - 1] && a[j] == a[1..][j - 1];
          }
        }
      } else {
        SubsequenceKeepsUnique(a, t);
      }
    }
  }
}
