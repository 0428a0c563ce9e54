/** The live search over the page's software cards. Each keystroke takes
    the input's trimmed, lower-cased value; an empty term resets the page,
    any other term shows exactly the cards whose searchable attribute or
    text contains it, highlights it inside the shown cards, and shows the
    no-results indicator exactly when no card is shown. */
module Search {
  import opened Strings
  import opened Dom
  import opened Highlight

  /** A `.software-card`: its `data-searchable` attribute, its content
      and whether it is displayed. `body` is the card element itself, so on
      the page it is never a text node and never a highlight span. */
  datatype Card = Card(searchable: string, body: Node, visible: bool)

  /** The term the input handler works with: the value trimmed and
      lower-cased. It is empty exactly when the value is all white space,
      and it holds no upper-case letter. */
  function SearchTerm(value: string): (term: string)
    ensures term == [] <==> AllSpace(value)
    ensures forall i :: 0 <= i < |term| ==> !IsUpper(term[i])
    ensures NoRegexMeta(value) ==> NoRegexMeta(term)
  {
    TrimEmptyIffAllSpace(value);
    LoweredTrimNoRegexMeta(value);
    ToLower(Trim(value))
  }

  /** A term with no upper-case letter is its own lower-case form. */
  lemma {:induction false} LowerTermIsLowered(term: string)
    requires forall i :: 0 <= i < |term| ==> !IsUpper(term[i])
    ensures ToLower(term) == term
  {
    assert forall i :: 0 <= i < |term| ==> ToLower(term)[i] == term[i];
  }

  /** Trimming and lower-casing bring in no regular-expression
      metacharacter. */
  lemma {:induction false} LoweredTrimNoRegexMeta(value: string)
    ensures NoRegexMeta(value) ==> NoRegexMeta(ToLower(Trim(value)))
  {
    if NoRegexMeta(value) {
      var r := Trim(value);
      var lo := TrimOffset(value);
      forall i | 0 <= i < |r| ensures !IsRegexMeta(ToLower(r)[i]) {
        assert r[i] == value[lo + i];
        LowerKeepsNonMeta(r[i]);
      }
    }
  }

  lemma LowerKeepsNonMeta(c: char)
    requires !IsRegexMeta(c)
    ensures !IsRegexMeta(LowerChar(c))
  {
  }

  /** The per-card test: the term occurs in the lower-cased searchable
      attribute or in the lower-cased text content. */
  function CardMatches(card: Card, term: string): bool
  {
    Contains(ToLower(card.searchable), term) || Contains(ToLower(TextContent(card.body)), term)
  }

  /** For a lower-case term, the test is a case-insensitive search in the
      attribute or the text. */
  lemma CardMatchesIgnoringCase(card: Card, term: string)
    requires forall i :: 0 <= i < |term| ==> !IsUpper(term[i])
    ensures CardMatches(card, term) <==>
            ContainsIgnoringCase(card.searchable, term) ||
            ContainsIgnoringCase(TextContent(card.body), term)
  {
    LowerTermIsLowered(term);
    ContainsLoweredIff(card.searchable, term);
    ContainsLoweredIff(TextContent(card.body), term);
  }

  /** A card after a non-empty search: shown and highlighted when it
      matches, hidden otherwise. */
  function Searched(card: Card, term: string): (c: Card)
    requires term != [] && NoRegexMeta(term)
    ensures c.searchable == card.searchable
    ensures TextContent(c.body) == TextContent(card.body)
    ensures c.visible == CardMatches(card, term)
    ensures c.body == if c.visible then HighlightTree(card.body, term) else card.body
  {
    if CardMatches(card, term) then card.(visible := true, body := HighlightTree(card.body, term))
    else card.(visible := false)
  }

  /** Every card after a non-empty search, in page order. */
  function SearchAll(cards: seq<Card>, term: string): (r: seq<Card>)
    requires term != [] && NoRegexMeta(term)
    ensures |r| == |cards|
  {
    if cards == [] then []
    else SearchAll(cards[..|cards| - 1], term) + [Searched(cards[|cards| - 1], term)]
  }

  /** Each card of the result is that card searched on its own. */
  lemma {:induction false} SearchAllAt(cards: seq<Card>, term: string, k: nat)
    requires term != [] && NoRegexMeta(term) && k < |cards|
    ensures SearchAll(cards, term)[k] == Searched(cards[k], term)
    decreases |cards|
  {
    if k < |cards| - 1 {
      SearchAllAt(cards[..|cards| - 1], term, k);
    }
  }

  /** A card after a reset: shown, with its highlight spans removed. A
      card that had no span is only shown. */
  function Reset(card: Card): (c: Card)
    ensures c.visible && c.searchable == card.searchable
    ensures TextContent(c.body) == TextContent(card.body)
    ensures !IsHighlight(card.body) ==> HighlightFree(c.body)
    ensures HighlightFree(card.body) ==> c == card.(visible := true)
  {
    UnhighlightKeepsContent(card.body);
    assert !IsHighlight(card.body) ==> HighlightFree(Unhighlight(card.body)) by {
      if !IsHighlight(card.body) {
        UnhighlightRemovesSpans(card.body);
      }
    }
    assert HighlightFree(card.body) ==> Unhighlight(card.body) == card.body by {
      if HighlightFree(card.body) {
        UnhighlightFreeUnchanged(card.body);
      }
    }
    card.(visible := true, body := Unhighlight(card.body))
  }

  /** A search followed by a reset, on a card that had no highlight span:
      the card is shown again with its attribute and structure; a card
      that matched keeps, around each text node that held the term, the
      wrapper element the highlighting made. */
  lemma {:induction false} ResetAfterSearch(card: Card, term: string)
    requires term != [] && NoRegexMeta(term) && HighlightFree(card.body)
    ensures Reset(Searched(card, term)) ==
              card.(visible := true,
                    body := if CardMatches(card, term) then Wrapped(card.body, term) else card.body)
  {
    if CardMatches(card, term) {
      UnhighlightAfterHighlight(card.body, term);
    }
  }

  /** Every card after a reset, in page order. */
  function ResetAll(cards: seq<Card>): (r: seq<Card>)
    ensures |r| == |cards|
  {
    if cards == [] then [] else ResetAll(cards[..|cards| - 1]) + [Reset(cards[|cards| - 1])]
  }

  /** Each card of the result is that card reset on its own. */
  lemma {:induction false} ResetAllAt(cards: seq<Card>, k: nat)
    requires k < |cards|
    ensures ResetAll(cards)[k] == Reset(cards[k])
    decreases |cards|
  {
    if k < |cards| - 1 {
      ResetAllAt(cards[..|cards| - 1], k);
    }
  }

  /** `ResetAllAt` with `Reset` unfolded: the two steps of
      `resetSearch`, span removal and showing, applied to one card. */
  lemma ResetAllShows(cards: seq<Card>, k: nat)
    requires k < |cards|
    ensures ResetAll(cards)[k] == cards[k].(visible := true, body := Unhighlight(cards[k].body))
  {
    ResetAllAt(cards, k);
  }

  /** Highlighting and resetting never change what a later search sees:
      every card matches the same terms afterwards. */
  lemma SearchesAreIndependent(card: Card, term: string, next: string)
    requires term != [] && NoRegexMeta(term)
    ensures CardMatches(Searched(card, term), next) == CardMatches(card, next)
    ensures CardMatches(Reset(card), next) == CardMatches(card, next)
  {
  }

  class SearchPage {
    const cards: array<Card>  // the page's `.software-card` elements
    var noResults: bool       // the no-results indicator is displayed

    /** The indicator is displayed exactly when no card is. */
    predicate Consistent()
      reads this, cards
    {
      noResults <==> forall k :: 0 <= k < cards.Length ==> !cards[k].visible
    }

    constructor (initial: seq<Card>, noResultsShown: bool)
      ensures fresh(cards) && cards[..] == initial && noResults == noResultsShown
    {
      cards := new Card[|initial|](i requires 0 <= i < |initial| => initial[i]);
      noResults := noResultsShown;
    }

    /** The input handler. A value that trims to nothing resets the page;
        otherwise every card is matched against the term, matching ones are
        shown and highlighted, the others hidden, and the indicator is
        displayed exactly when none matched. */
    method OnInput(value: string)
      requires NoRegexMeta(value)
      modifies this, cards
      ensures AllSpace(value) ==> !noResults
      ensures AllSpace(value) ==> cards[..] == ResetAll(old(cards[..]))
      ensures !AllSpace(value) ==> Consistent()
      ensures !AllSpace(value) ==> cards[..] == SearchAll(old(cards[..]), SearchTerm(value))
    {
      var searchTerm := SearchTerm(value);
      if searchTerm == [] {
        ResetSearch();
        return;
      }
      Filter(searchTerm);
    }

    /** The non-empty branch of the handler: one pass over the cards that
        shows and highlights the matching ones, hides the others and
        records whether any matched. */
    method Filter(searchTerm: string)
      requires searchTerm != [] && NoRegexMeta(searchTerm)
      modifies this, cards
      ensures cards[..] == SearchAll(old(cards[..]), searchTerm)
      ensures Consistent()
    {
      ghost var before := cards[..];
      ghost var after := SearchAll(before, searchTerm);
      ghost var shownAt := 0;
      var foundResults := false;
      for i := 0 to cards.Length
        invariant forall k :: 0 <= k < i ==> cards[k] == after[k]
        invariant forall k :: i <= k < cards.Length ==> cards[k] == before[k]
        invariant foundResults ==> 0 <= shownAt < i && cards[shownAt].visible
        invariant !foundResults ==> forall k :: 0 <= k < i ==> !cards[k].visible
      {
        var card := Searched(cards[i], searchTerm);
        SearchAllAt(before, searchTerm, i);
        cards[i] := card;
        if card.visible {
          foundResults := true;
          shownAt := i;
        }
      }
      assert cards[..] == after;
      if foundResults {
        noResults := false;
      } else {
        noResults := true;
      }
    }

    /** `resetSearch`: every highlight span is replaced by its text and
        its parent normalized, then every card is shown and the indicator
        hidden. */
    method ResetSearch()
      modifies this, cards
      ensures !noResults
      ensures cards[..] == ResetAll(old(cards[..]))
    {
      ghost var before := cards[..];
      for i := 0 to cards.Length
        invariant forall k :: 0 <= k < i ==> cards[k] == before[k].(body := Unhighlight(before[k].body))
        invariant forall k :: i <= k < cards.Length ==> cards[k] == before[k]
      {
        cards[i] := cards[i].(body := Unhighlight(cards[i].body));
      }
      ghost var after := ResetAll(before);
      for i := 0 to cards.Length
        invariant forall k :: 0 <= k < i ==> cards[k] == after[k]
        invariant forall k :: i <= k < cards.Length ==> cards[k] == before[k].(body := Unhighlight(before[k].body))
      {
        ResetAllShows(before, i);
        cards[i] := cards[i].(visible := true);
      }
      assert cards[..] == after;
      noResults := false;
    }
  }
}
