# Personal Notes: a Dafny model of the note manager

The notes web app keeps a list of short notes in the browser. A note has an
id, a title, a content text and two timestamps. The `NotesApp` class in
`script.js` does four things with the list:

- saves a note from the editor, either as a new note or over an existing one;
- deletes a note;
- filters the list by a search term;
- draws a card for each visible note. The card shows a highlighted title, a
  highlighted 150-character excerpt and a relative-age label.

This project models that logic as pure Dafny functions over an immutable
`Note` datatype held in a `seq<Note>`. Timestamps are integer milliseconds.
Ids, clock readings and the user's confirmation are parameters.

Modules:

- `Wrappers`: `Option`, standing for JavaScript's `null`.
- `Text`: the string built-ins the app calls. Covers `trim` with JavaScript's
  whitespace set, ASCII `toLowerCase`, `includes`, and the case-insensitive
  comparison of a regular expression with the `i` flag.
- `Seqs`: `filter`, with a complete specification. The result is an
  order-preserving subsequence that holds every element satisfying the test,
  with the same multiplicity.
- `Notes`: the `Note` record, validation of the editor fields, the create and
  edit paths of `saveNote`, and the filter of `deleteNote`.
- `Search`: `handleSearch` and the filter in `renderNotes`.
- `Display`: the content excerpt and `highlightSearchTerm`. Highlighting is a
  sequence of pieces: a plain character, or a marked match in its original
  case. The markup string is rendered from the pieces, and erasing the markup
  gives the text back.
- `Dates`: `formatDate`, which ceiling-divides the absolute millisecond
  difference by one day.
- `App`: the application state as a value. It holds the notes in memory, the
  stored copy, the edit target and the search term. It also has the handlers
  and the card list `renderNotes` draws.

The model keeps the code's behaviour where it differs from what a reader might expect:

- Editing overwrites `createdAt` with the save time, like `updatedAt`
  (`script.js:83`, `script.js:90`). It does not keep the creation time.
- Editing with a target id that no note has does not fail. `findIndex`
  returns -1, and `notes[-1] = ...` only sets an array property. `filter`,
  `map` and `JSON.stringify` all ignore that property, so the collection
  stays unchanged.
- Editing with duplicate ids overwrites only the first note with the id.
- An empty edit target counts as "no target" (JavaScript truthiness), so it
  creates a note.
- A zero time difference is labelled "-1 days ago", not "Today". A note read
  in the same millisecond it was saved shows that label.
- The search term is lowercased but not trimmed.
- The term is turned into a regular expression without escaping. The model
  covers only terms without regular-expression syntax.

## Model

| member | source | states |
|---|---|---|
| Text.Trim | script.js:72-73 | the result is the input minus a whitespace-only prefix and suffix, and it neither starts nor ends with whitespace |
| Text.TrimEmptyIffAllSpace | script.js:72-75 | a field trims to the empty string exactly when it is all whitespace, so the emptiness test is about whitespace-only input |
| Text.TrimIdempotent | script.js:72-73 | trimming an already trimmed field changes nothing |
| Text.Lower | script.js:111 | the length is kept, every upper-case letter becomes its lower-case partner (code point + 32), every other character is kept, and no upper-case letter is left |
| Text.ContainsIffOccurrence | script.js:141-142 | `includes` holds exactly when the term occurs at some position of the text |
| Seqs.Filter | script.js:140-143 | the filtered list is an order-preserving subsequence, holds only elements passing the test, and holds each passing element as often as the input does |
| Seqs.FilterUnique | script.js:140-143 | any list with those three properties is the filtered list, so they specify the filter completely |
| Notes.Validate | script.js:72-81 | a save is refused exactly when both fields are whitespace-only; otherwise content is trimmed, the title is trimmed or becomes "Untitled Note", and the title is non-empty and already trimmed |
| Notes.FindIndex | script.js:89 | the result is the first position holding the id, and it is absent exactly when no note has the id |
| Notes.Create | script.js:92-94 | the new note, with the given id, fields and timestamps, is at index 0 and the old notes follow in order |
| Notes.Edit | script.js:87-90 | the length and every note's id are kept; the first note with the id gets the new title, content and both timestamps; every other note is unchanged; with no such note the list is unchanged |
| Notes.Save | script.js:71-95 | the save is refused exactly when both fields are whitespace-only; creating adds one note in front of the unchanged list; editing keeps the length |
| Notes.SaveCreates | script.js:80-94 | creating puts the note with trimmed fields, the default title for a blank title, and both timestamps in front of the old notes |
| Notes.SaveEdits | script.js:80-90 | editing a present id replaces title, content, createdAt and updatedAt of that note in place, keeps its id and position, and changes no other note |
| Notes.SaveMissingTarget | script.js:89-90 | editing with an id no note has leaves the collection unchanged |
| Notes.Delete | script.js:104 | the result is the order-preserving subsequence of exactly the notes whose id differs, with their multiplicities; the id is gone; an absent id leaves the list unchanged |
| Notes.CreateKeepsIdsUnique | script.js:93-94 | creating a note under an unused id keeps ids unique |
| Notes.EditKeepsIdsUnique | script.js:89-90 | editing keeps ids unique |
| Notes.DeleteRemovesOne | script.js:104 | with unique ids, deleting keeps them unique and removes exactly one note when the id is present |
| Search.SearchTerm | script.js:110-111 | the stored term has the input's length, is lower-case, and equals the input ignoring case |
| Search.Visible | script.js:137-144 | an empty term shows the list unchanged; otherwise the shown notes form an order-preserving subsequence holding exactly the notes whose lowercased title or content contains the term, with their multiplicities |
| Search.VisibleIsFilter | script.js:137-144 | the shown list is the filter by the match test even for the empty term, since everything contains the empty string |
| Search.ShownIffOccurs | script.js:137-144 | a note is shown for a typed search exactly when the typed text occurs, ignoring case, in its title or content |
| Display.Excerpt | script.js:179 | content of at most 150 characters is shown whole; longer content is cut to 150 characters followed by "..."; the excerpt is at most 153 long and starts with as much of the content as fits in 150 characters |
| Display.Pieces | script.js:117-118 | erasing the highlight markup from the scan's pieces gives back the original text |
| Display.Highlight | script.js:115-119 | an empty term returns the text unchanged; for a non-empty term the result is the markup of a greedy left-to-right marking of the text (every mark a case-insensitive copy of the term, no overlaps, no unmarked match start), and it equals the text exactly when the text does not contain the term, ignoring case |
| Display.PiecesAreGreedy | script.js:117-118 | every mark is a case-insensitive copy of the term, marks do not overlap, and no plain character starts a match |
| Display.GreedyIsPieces | script.js:117-118 | every division of the text with those properties is the scan's, so matches are exactly the left-to-right non-overlapping ones |
| Display.MarkedIffContains | script.js:115-118 | the highlight marks something exactly when the lowercased text contains the lowercased term, agreeing with the search filter |
| Dates.ElapsedDays | script.js:124-125 | the day count is zero only for a zero difference; otherwise the difference lies in the last day counted: (d - 1) days < diff <= d days |
| Dates.FormatDate | script.js:121-131 | (0, 1 day] gives "Today"; (1, 2 days] gives "Yesterday"; zero gives "-1 days ago"; (n, n+1 days] for n in 2..6 gives "n days ago"; more than 7 days gives the absolute date of the instant |
| Dates.LabelDependsOnDistance | script.js:124-131 | the label depends only on the distance between the instants, so future and past instants read alike, apart from the date an absolute label carries |
| Dates.SameInstantReadsMinusOneDaysAgo | script.js:125-129 | a note read in the millisecond it was saved shows "-1 days ago" |
| Dates.BucketExamples | script.js:125-130 | exactly 24 hours reads "Today", 25 hours "Yesterday", 4 days "3 days ago", 10 days an absolute date |
| App.Start | script.js:4-6 | the notes are the stored list, or empty when storage holds nothing; there is no edit target and the search term is empty |
| App.OpenEditor | script.js:41-42 | opening the editor records the target and changes nothing else |
| App.CloseEditor | script.js:64-68 | closing the editor clears the target and changes nothing else |
| App.SaveNote | script.js:71-100 | a refused save leaves the whole state unchanged; an accepted one stores the saved notes, clears the target and keeps the search term |
| App.DeleteNote | script.js:102-108 | without confirmation nothing changes; with it, the notes become the filtered list and storage holds them |
| App.HandleSearch | script.js:110-113 | the search term becomes the lowercased input and nothing else changes |
| App.HandlersKeepStorageInStep | script.js:94-106 | once storage matches memory, every handler leaves it matching |
| App.CardOf | script.js:154-181 | a card carries the note's id and the label of its updatedAt; with an empty term it shows the title and excerpt as they are; with a non-empty term the title and the excerpt (not the full content) are each the markup of a greedy left-to-right marking of the term |
| App.RenderNotes | script.js:133-185 | the empty state is drawn exactly when no note is visible, whatever the term; otherwise there is one card per visible note, in order, each the card of that note |
| App.TitleHighlightedIffTitleMatches | script.js:139-157 | under a typed search a card's title is highlighted exactly when the lowercased title contains the search term |
| App.MatchPastExcerptNotHighlighted | script.js:179 | content whose only matches lie past the excerpt gives a card body without highlighting |
| App.EmptySearchShowsAll | script.js:137-157 | with an empty term every note gets a card, in collection order, with its own title |

## Left out

- The DOM: looking up elements, showing and hiding the editor, binding events
  and keyboard shortcuts (`script.js:15-69`). None of it affects the notes.
  Only the edit target that `openNoteModal` and `closeNoteModal` set is kept.
  When `openNoteModal` gets an id no note has, it records the target and then
  fails on `note.title`. The model keeps only the recorded target.
- `localStorage` and JSON (`script.js:4`, `script.js:187-189`). Storage is the
  `stored` field of `App.State`, and writing it means setting it to the notes.
  A malformed stored value makes `JSON.parse` throw in the constructor. The
  model has no serialised form, so it does not model that failure.
- `App.HandlersKeepStorageInStep`: assumes every storage write succeeds, and so
  do `App.SaveNote` and `App.DeleteNote`. In the source,
  `localStorage.setItem` (`script.js:188`) can throw, for example when the
  quota is exceeded. By then the in-memory notes have already changed
  (`script.js:90`, `script.js:94`, `script.js:104`). Storage would then keep the
  old notes, and the rest of the handler would not run: after a save,
  `renderNotes` and `closeNoteModal` (`script.js:98-99`) are skipped and the
  edit target stays set; after a delete, `renderNotes` (`script.js:106`) is
  skipped. The model has no failing write.
- `alert` and `confirm` (`script.js:76`, `script.js:103`). A refused save
  returns the unchanged state. The user's answer to `confirm` is a `confirmed`
  parameter.
- `Date.now()` and `new Date().toISOString()` (`script.js:83-84`,
  `script.js:93`). The new id and the two clock readings are parameters, and
  timestamps are milliseconds instead of ISO strings. Parsing a stored string
  that is not a date gives NaN and the label "Invalid Date". The model has no
  such timestamp.
- `toLocaleDateString()` (`script.js:130`): locale formatting is host code. The
  label `AbsoluteDate(t)` carries the instant it would format.
- `Dates.FormatDate` returns a `Label` value, not the text. The "N days ago"
  string is `DaysAgo(N)`.
- `Dates.ElapsedDays` uses exact integer ceiling division. JavaScript divides
  in floating point. The two agree wherever the result decides the label,
  which is up to 8 days.
- The HTML template (`script.js:154-184`): a card is a `Card` record with id,
  highlighted title, highlighted excerpt and label. Like the source, `Render`
  copies note text into the markup unescaped. The model leaves out what the
  browser then does: it parses that text as HTML, so tags in a note become
  elements.
- The sample notes seeded into an empty list (`script.js:196-217`): bootstrap
  data.
- `Display.Highlight`: defined only for terms without regular-expression
  syntax (`\ ^ $ . * + ? ( ) [ ] { } |`). The source builds a regular
  expression from the unescaped term. Such characters change what matches,
  and an unbalanced one makes `new RegExp` throw.
- `App.CardOf`: has the same restriction as `Display.Highlight`.
- `App.RenderNotes`: has the same restriction as `Display.Highlight` whenever
  some note is visible. With no visible note the source builds no regular
  expression, and the model accepts any term.
- `App.RenderNotes`: reads the clock once, as the parameter `now`, for every
  card. The source calls `new Date()` inside `formatDate` for each card
  (`script.js:123`, `script.js:181`), so cards drawn across a day boundary
  could get labels from different instants.
- `Text.Lower`: ASCII only. JavaScript also lowercases non-ASCII letters, and
  its case-insensitive matching folds them too.
- `Display.Excerpt`: counts Unicode scalar values. JavaScript counts UTF-16
  code units, so a cut can split a surrogate pair.
