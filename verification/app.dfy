/** The `NotesApp` object as a value: the notes in memory, the copy in
    storage, the editor's target and the search term, with the handlers that
    change them and the card list `renderNotes` draws. The DOM, the dialogs and
    JSON serialisation are replaced by parameters and plain values. */
module App {
  import opened Wrappers
  import opened Text
  import opened Notes
  import opened Search
  import opened Display
  import opened Dates

  /** `stored` is the value under the storage key: `None` when nothing has
      been written yet. */
  datatype State = State(notes: seq<Note>, stored: Option<seq<Note>>, editId: Option<string>, searchTerm: string)

  /** Storage holds exactly the in-memory collection. */
  predicate Synced(s: State) {
    s.stored == Some(s.notes)
  }

  /** The constructor: `JSON.parse(localStorage.getItem(...)) || []`, no
      edit target and an empty search term. Loading does not write back. */
  function Start(stored: Option<seq<Note>>): (s: State)
    ensures s.notes == (if stored.Some? then stored.value else [])
    ensures s.stored == stored
    ensures s.editId.None? && s.searchTerm == ""
    ensures stored.Some? ==> Synced(s)
  {
    State(if stored.Some? then stored.value else [], stored, None, "")
  }

  /** `openNoteModal(noteId)` records the target; `closeNoteModal` clears it. */
  function OpenEditor(s: State, noteId: Option<string>): (r: State)
    ensures r.editId == noteId
    ensures r.notes == s.notes && r.stored == s.stored && r.searchTerm == s.searchTerm
  {
    s.(editId := noteId)
  }

  function CloseEditor(s: State): (r: State)
    ensures r.editId.None?
    ensures r.notes == s.notes && r.stored == s.stored && r.searchTerm == s.searchTerm
  {
    s.(editId := None)
  }

  /** `saveNote`: a refused save changes nothing (the editor stays open); an
      accepted one changes the notes, writes them to storage and closes the
      editor. */
  function SaveNote(s: State, rawTitle: string, rawContent: string,
                    newId: string, createdAt: int, updatedAt: int): (r: State)
    ensures AllSpace(rawTitle) && AllSpace(rawContent) ==> r == s
    ensures !(AllSpace(rawTitle) && AllSpace(rawContent)) ==>
              && Synced(r)
              && r.editId.None?
              && r.searchTerm == s.searchTerm
              && Save(s.notes, s.editId, rawTitle, rawContent, newId, createdAt, updatedAt) == Saved(r.notes)
  {
    match Save(s.notes, s.editId, rawTitle, rawContent, newId, createdAt, updatedAt)
    case Rejected => s
    case Saved(notes) => State(notes, Some(notes), None, s.searchTerm)
  }

  /** `deleteNote(id)`: nothing happens unless the user confirms; then the
      note is filtered out and storage is written. */
  function DeleteNote(s: State, id: string, confirmed: bool): (r: State)
    ensures !confirmed ==> r == s
    ensures confirmed ==> Synced(r) && r.notes == Delete(s.notes, id)
    ensures confirmed ==> r.editId == s.editId && r.searchTerm == s.searchTerm
  {
    if confirmed then
      var notes := Delete(s.notes, id);
      s.(notes := notes, stored := Some(notes))
    else s
  }

  /** `handleSearch(input)`. */
  function HandleSearch(s: State, input: string): (r: State)
    ensures r.searchTerm == SearchTerm(input)
    ensures r.notes == s.notes && r.stored == s.stored && r.editId == s.editId
  {
    s.(searchTerm := SearchTerm(input))
  }

  /** Every handler leaves storage in step with memory once it has been
      written, and a handler that writes brings it in step. */
  lemma HandlersKeepStorageInStep(s: State, rawTitle: string, rawContent: string, newId: string,
                                  createdAt: int, updatedAt: int, id: string, confirmed: bool,
                                  input: string, target: Option<string>)
    requires Synced(s)
    ensures Synced(SaveNote(s, rawTitle, rawContent, newId, createdAt, updatedAt))
    ensures Synced(DeleteNote(s, id, confirmed))
    ensures Synced(HandleSearch(s, input))
    ensures Synced(OpenEditor(s, target)) && Synced(CloseEditor(s))
  {
  }

  /** One card: the highlighted title, the highlighted excerpt, the label of
      `updatedAt`, and the id its edit and delete buttons carry. */
  datatype Card = Card(id: string, title: string, body: string, date: Label)

  /** What `renderNotes` draws: the empty-state panel or the cards. */
  datatype View = EmptyState | Cards(cards: seq<Card>)

  /** The card of one note: the title and the excerpt, not the full content,
      are highlighted. */
  function CardOf(n: Note, term: string, now: int): (c: Card)
    requires IsLiteral(term)
    ensures c.id == n.id && c.date == FormatDate(n.updatedAt, now)
    ensures term == "" ==> c.title == n.title && c.body == Excerpt(n.content)
    ensures term != "" ==> exists ps :: GreedyMarking(ps, n.title, term) && c.title == Render(ps)
    ensures term != "" ==> exists ps :: GreedyMarking(ps, Excerpt(n.content), term) && c.body == Render(ps)
  {
    Card(n.id, Highlight(n.title, term), Highlight(Excerpt(n.content), term), FormatDate(n.updatedAt, now))
  }

  /** `renderNotes` at instant `now`: one card per visible note, in order, or
      the empty state when no note is visible. The search term is turned into a
      regular expression only when there are cards to highlight. */
  function RenderNotes(s: State, now: int): (v: View)
    requires |Visible(s.notes, s.searchTerm)| > 0 ==> IsLiteral(s.searchTerm)
    ensures v.EmptyState? <==> |Visible(s.notes, s.searchTerm)| == 0
    ensures v.Cards? ==> |v.cards| == |Visible(s.notes, s.searchTerm)|
    ensures v.Cards? ==> forall k :: 0 <= k < |v.cards| ==>
              v.cards[k] == CardOf(Visible(s.notes, s.searchTerm)[k], s.searchTerm, now)
  {
    var shown := Visible(s.notes, s.searchTerm);
    if |shown| == 0 then EmptyState
    else Cards(seq(|shown|, k requires 0 <= k < |shown| => CardOf(shown[k], s.searchTerm, now)))
  }

  /** With an empty search every note gets a card, in collection order, with
      its title and excerpt as they are. */
  lemma EmptySearchShowsAll(s: State, now: int)
    requires s.searchTerm == ""
    requires |s.notes| > 0
    ensures var v := RenderNotes(s, now);
      && v.Cards? && |v.cards| == |s.notes|
      && forall k :: 0 <= k < |s.notes| ==>
           v.cards[k].id == s.notes[k].id && v.cards[k].title == s.notes[k].title
  {
  }

  /** Under a typed search, a card's title carries highlighting exactly when
      the title matches the search, so highlighting agrees with the filter. */
  lemma TitleHighlightedIffTitleMatches(n: Note, input: string, now: int)
    requires input != ""
    requires IsLiteral(SearchTerm(input))
    ensures CardOf(n, SearchTerm(input), now).title != n.title <==> Contains(Lower(n.title), SearchTerm(input))
  {
  }

  /** Highlighting applies to the excerpt, so content that matches only after
      its first 150 characters leaves the card's body without highlighting. */
  lemma MatchPastExcerptNotHighlighted(n: Note, term: string, now: int)
    requires IsLiteral(term)
    requires !Contains(Lower(Excerpt(n.content)), Lower(term))
    ensures CardOf(n, term, now).body == Excerpt(n.content)
  {
  }
}
