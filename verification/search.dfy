/** The search box: `handleSearch` stores the lowercased input and
    `renderNotes` keeps the notes whose lowercased title or content contains it. */
module Search {
  import opened Text
  import opened Notes
  import Seqs

  /** `term.toLowerCase()`: the stored search term. It is not trimmed, so
      surrounding spaces take part in the match. */
  function SearchTerm(input: string): (term: string)
    ensures |term| == |input|
    ensures Lower(term) == term
    ensures SameCI(term, input)
  {
    LowerIdempotent(input);
    Lower(input)
  }

  /** The filter test of `renderNotes`: `term` (already lowercased) occurs in
      the lowercased title or the lowercased content. */
  predicate Matches(n: Note, term: string) {
    Contains(Lower(n.title), term) || Contains(Lower(n.content), term)
  }

  /** The notes `renderNotes` shows: all of them for an empty term, otherwise
      the matching ones in collection order. */
  function Visible(notes: seq<Note>, term: string): (r: seq<Note>)
    ensures term == "" ==> r == notes
    ensures Seqs.IsSubsequence(r, notes)
    ensures forall n: Note :: n in r <==> n in notes && Matches(n, term)
    ensures forall n: Note :: Matches(n, term) ==> multiset(r)[n] == multiset(notes)[n]
  {
    if term == "" then
      AllMatchEmpty(notes);
      Seqs.FilterKeepsAll(notes, n => Matches(n, term));
      notes
    else
      var r := Seqs.Filter(notes, n => Matches(n, term));
      forall n | n in notes && Matches(n, term)
        ensures n in r
      {
        assert multiset(r)[n] == multiset(notes)[n] > 0;
      }
      r
  }

  lemma AllMatchEmpty(notes: seq<Note>)
    ensures forall n :: n in notes ==> Matches(n, "")
  {
  }

  /** Visible is the filter of the collection by `Matches`, empty term included:
      the `if (this.searchTerm)` guard does not change which notes are shown. */
  lemma VisibleIsFilter(notes: seq<Note>, term: string)
    ensures Visible(notes, term) == Seqs.Filter(notes, n => Matches(n, term))
  {
    Seqs.FilterUnique(Visible(notes, term), notes, n => Matches(n, term));
  }

  /** A note is shown for a typed search exactly when the typed text occurs,
      ignoring case, at some position of its title or of its content. */
  lemma ShownIffOccurs(notes: seq<Note>, input: string, n: Note)
    requires n in notes
    ensures n in Visible(notes, SearchTerm(input)) <==>
              (exists i :: OccursAt(Lower(n.title), Lower(input), i))
              || (exists i :: OccursAt(Lower(n.content), Lower(input), i))
  {
    ContainsIffOccurrence(Lower(n.title), Lower(input));
    ContainsIffOccurrence(Lower(n.content), Lower(input));
  }
}
