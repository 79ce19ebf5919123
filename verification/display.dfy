/** What a note card shows of its text: the 150-character content excerpt and
    the search-term highlighting of `highlightSearchTerm`. Highlighting is
    modelled as a sequence of pieces (plain characters and marked matches);
    the markup string is rendered from it. */
module Display {
  import opened Text

  /** The number of content characters a card shows. */
  const ExcerptLength: nat := 150

  /** The marker appended to a cut excerpt. */
  const Ellipsis: string := "..."

  /** `content.substring(0, 150) + (content.length > 150 ? '...' : '')`. */
  function Excerpt(content: string): (r: string)
    ensures |content| <= ExcerptLength ==> r == content
    ensures |content| > ExcerptLength ==> r == content[..ExcerptLength] + Ellipsis
    ensures |r| <= ExcerptLength + |Ellipsis|
    ensures var n := if |content| < ExcerptLength then |content| else ExcerptLength;
      IsPrefix(content[..n], r)
  {
    if |content| > ExcerptLength then content[..ExcerptLength] + Ellipsis else content
  }

  /** Characters that have a meaning inside a regular expression. */
  predicate IsRegexMeta(c: char) {
    c in "\\^$.*+?()[]{}|"
  }

  /** A search term the regular expression built from it matches literally. */
  predicate IsLiteral(term: string) {
    forall k :: 0 <= k < |term| ==> !IsRegexMeta(term[k])
  }

  /** A piece of highlighted text: a character left as it is, or a matched
      stretch of the original text, wrapped in a highlight span. */
  datatype Piece = Plain(c: char) | Mark(text: string)

  const OpenTag: string := "<span class=\"search-highlight\">"
  const CloseTag: string := "</span>"

  /** The original text a piece covers. */
  function Raw(p: Piece): string {
    match p
    case Plain(c) => [c]
    case Mark(t) => t
  }

  /** The original text the pieces cover, with the markup removed. */
  function Erase(ps: seq<Piece>): string {
    if |ps| == 0 then "" else Raw(ps[0]) + Erase(ps[1..])
  }

  /** The markup string for a piece: the `$1` replacement wraps the matched
      text, in its original case, in the highlight span. */
  function Markup(p: Piece): string {
    match p
    case Plain(c) => [c]
    case Mark(t) => OpenTag + t + CloseTag
  }

  function Render(ps: seq<Piece>): string {
    if |ps| == 0 then "" else Markup(ps[0]) + Render(ps[1..])
  }

  /** The scan `text.replace(/(term)/gi, ...)` performs: at each position a
      case-insensitive match of `term` is marked and skipped whole, otherwise
      one character is kept and the scan moves on. */
  function Pieces(text: string, term: string): (ps: seq<Piece>)
    requires term != ""
    ensures Erase(ps) == text
    decreases |text|
  {
    if |text| == 0 then []
    else
      var p := if StartsWithCI(text, term) then Mark(text[..|term|]) else Plain(text[0]);
      var n := |Raw(p)|;
      assert Raw(p) == text[..n];
      var rest := Pieces(text[n..], term);
      assert ([p] + rest)[0] == p && ([p] + rest)[1..] == rest;
      assert text[..n] + text[n..] == text;
      [p] + rest
  }

  /** `highlightSearchTerm(text, term)` for a term without regular-expression
      syntax: an empty term leaves the text alone; otherwise the result is the
      markup of a greedy, left-to-right, non-overlapping marking of the text. */
  function Highlight(text: string, term: string): (r: string)
    requires IsLiteral(term)
    ensures term == "" ==> r == text
    ensures term != "" ==> exists ps :: GreedyMarking(ps, text, term) && r == Render(ps)
    ensures term != "" ==> (r == text <==> !Contains(Lower(text), Lower(term)))
  {
    if term == "" then text
    else
      var ps := Pieces(text, term);
      PiecesAreGreedy(text, term);
      MarkedIffContains(text, term);
      assert !HasMark(ps) ==> Render(ps) == text by {
        if !HasMark(ps) {
          UnmarkedRenderIsErase(ps);
        }
      }
      assert HasMark(ps) ==> Render(ps) != text by {
        if HasMark(ps) {
          MarkedRenderIsLonger(ps);
        }
      }
      Render(ps)
  }

  /** Where the `k`th piece starts in the original text. */
  function Offset(ps: seq<Piece>, k: nat): nat
    requires k <= |ps|
  {
    |Erase(ps[..k])|
  }

  /** A piece is placed as a left-to-right scan places it: a marked piece is a
      case-insensitive copy of the term, and a plain character sits where no
      match of the term starts. */
  predicate PieceFits(p: Piece, text: string, at: nat, term: string) {
    match p
    case Mark(t) => SameCI(t, term)
    case Plain(_) => at <= |text| && !StartsWithCI(text[at..], term)
  }

  /** `ps` marks `text` greedily: the pieces cover the text, marks do not
      overlap, and every position not inside a mark is not the start of a match. */
  ghost predicate GreedyMarking(ps: seq<Piece>, text: string, term: string) {
    && Erase(ps) == text
    && forall k :: 0 <= k < |ps| ==> PieceFits(ps[k], text, Offset(ps, k), term)
  }

  lemma {:induction false} EraseAppend(a: seq<Piece>, b: seq<Piece>)
    ensures Erase(a + b) == Erase(a) + Erase(b)
  {
    if |a| > 0 {
      assert (a + b)[0] == a[0];
      assert (a + b)[1..] == a[1..] + b;
      EraseAppend(a[1..], b);
      assert Erase(a + b) == Raw(a[0]) + (Erase(a[1..]) + Erase(b));
    } else {
      assert a + b == b;
    }
  }

  lemma OffsetCons(p: Piece, rest: seq<Piece>, k: nat)
    requires k <= |rest|
    ensures Offset([p] + rest, k + 1) == |Raw(p)| + Offset(rest, k)
  {
    assert ([p] + rest)[..k + 1] == [p] + rest[..k];
    EraseAppend([p], rest[..k]);
    assert Erase([p]) == Raw(p) by {
      assert [p][1..] == [];
    }
  }

  /** Greedy marking of a text splits into its first piece and a greedy
      marking of the text after that piece. */
  lemma GreedyCons(p: Piece, rest: seq<Piece>, text: string, term: string)
    requires |Raw(p)| <= |text| && text[..|Raw(p)|] == Raw(p)
    ensures GreedyMarking([p] + rest, text, term) <==>
              PieceFits(p, text, 0, term) && GreedyMarking(rest, text[|Raw(p)|..], term)
  {
    var ps := [p] + rest;
    var n := |Raw(p)|;
    var tail := text[n..];
    assert ps[1..] == rest;
    assert Erase(ps) == Raw(p) + Erase(rest);
    assert text == Raw(p) + tail;
    assert Erase(ps) == text <==> Erase(rest) == tail;
    assert Offset(ps, 0) == 0;
    forall j | 0 <= j < |rest|
      ensures PieceFits(ps[j + 1], text, Offset(ps, j + 1), term) <==> PieceFits(rest[j], tail, Offset(rest, j), term)
    {
      OffsetCons(p, rest, j);
      assert ps[j + 1] == rest[j];
      var o := Offset(rest, j);
      if n + o <= |text| {
        assert text[n + o..] == tail[o..];
      }
    }
    if GreedyMarking(rest, tail, term) && PieceFits(p, text, 0, term) {
      forall k | 0 <= k < |ps|
        ensures PieceFits(ps[k], text, Offset(ps, k), term)
      {
        if k > 0 {
          assert PieceFits(rest[k - 1], tail, Offset(rest, k - 1), term);
        }
      }
    }
    if GreedyMarking(ps, text, term) {
      assert PieceFits(ps[0], text, Offset(ps, 0), term);
      forall j | 0 <= j < |rest|
        ensures PieceFits(rest[j], tail, Offset(rest, j), term)
      {
        assert PieceFits(ps[j + 1], text, Offset(ps, j + 1), term);
      }
    }
  }

  /** The scan marks greedily. */
  lemma {:induction false} PiecesAreGreedy(text: string, term: string)
    requires term != ""
    ensures GreedyMarking(Pieces(text, term), text, term)
    decreases |text|
  {
    if |text| > 0 {
      var ps := Pieces(text, term);
      var p := ps[0];
      assert ps == [p] + ps[1..];
      if StartsWithCI(text, term) {
        PiecesAreGreedy(text[|term|..], term);
      } else {
        PiecesAreGreedy(text[1..], term);
        assert text[0..] == text;
      }
      GreedyCons(p, ps[1..], text, term);
    }
  }

  /** A greedy marking is the scan's marking: matches are found left to right,
      without overlap, and no other division of the text has these properties. */
  lemma {:induction false} GreedyIsPieces(ps: seq<Piece>, text: string, term: string)
    requires term != ""
    requires GreedyMarking(ps, text, term)
    ensures ps == Pieces(text, term)
    decreases |text|
  {
    if |ps| > 0 {
      var p := ps[0];
      var rest := ps[1..];
      assert ps == [p] + rest;
      assert Erase(ps) == Raw(p) + Erase(rest);
      assert text[..|Raw(p)|] == Raw(p);
      GreedyCons(p, rest, text, term);
      match p
      case Mark(t) =>
        assert |t| == |term|;
        assert StartsWithCI(text, term);
        GreedyIsPieces(rest, text[|term|..], term);
      case Plain(c) =>
        assert text[0..] == text;
        assert !StartsWithCI(text, term);
        GreedyIsPieces(rest, text[1..], term);
    }
  }

  predicate HasMark(ps: seq<Piece>) {
    exists k :: 0 <= k < |ps| && ps[k].Mark?
  }

  /** The scan marks something exactly when the text contains the term,
      ignoring case: the highlight agrees with the search filter. */
  lemma {:induction false} MarkedIffContains(text: string, term: string)
    requires term != ""
    ensures HasMark(Pieces(text, term)) <==> Contains(Lower(text), Lower(term))
    decreases |text|
  {
    if |text| > 0 {
      var ps := Pieces(text, term);
      StartsWithCIIffLowerPrefix(text, term);
      if StartsWithCI(text, term) {
        assert ps[0].Mark?;
      } else {
        var rest := Pieces(text[1..], term);
        assert ps == [Plain(text[0])] + rest;
        MarkedIffContains(text[1..], term);
        HasMarkCons(Plain(text[0]), rest);
        var lt := Lower(text);
        LowerSlice(text, 1, |text|);
        assert text[1..|text|] == text[1..];
        assert lt[1..] == Lower(text[1..]);
        assert !IsPrefix(Lower(term), lt);
        assert Contains(lt, Lower(term)) <==> Contains(lt[1..], Lower(term));
      }
    }
  }

  lemma HasMarkCons(p: Piece, rest: seq<Piece>)
    ensures HasMark([p] + rest) <==> p.Mark? || HasMark(rest)
  {
    var ps := [p] + rest;
    if HasMark(rest) {
      var k :| 0 <= k < |rest| && rest[k].Mark?;
      assert ps[k + 1].Mark?;
    }
    if HasMark(ps) && !p.Mark? {
      var k :| 0 <= k < |ps| && ps[k].Mark?;
      assert rest[k - 1].Mark?;
    }
    assert p.Mark? ==> ps[0].Mark?;
  }

  lemma {:induction false} UnmarkedRenderIsErase(ps: seq<Piece>)
    requires !HasMark(ps)
    ensures Render(ps) == Erase(ps)
  {
    if |ps| > 0 {
      assert ps[0].Plain?;
      UnmarkedRenderIsErase(ps[1..]);
    }
  }

  /** Each mark adds its span tags, so marked pieces render longer than the
      text they cover. */
  lemma {:induction false} MarkedRenderIsLonger(ps: seq<Piece>)
    ensures |Render(ps)| >= |Erase(ps)|
    ensures HasMark(ps) ==> |Render(ps)| > |Erase(ps)|
  {
    if |ps| > 0 {
      MarkedRenderIsLonger(ps[1..]);
      if HasMark(ps) && !ps[0].Mark? {
        var k :| 0 <= k < |ps| && ps[k].Mark?;
        assert ps[1..][k - 1].Mark?;
      }
    }
  }
}
