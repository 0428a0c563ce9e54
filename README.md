# R2Innovation site script, modelled in Dafny

This project models `resources/js/main.js`, the browser script of the
R2Innovation web site, and proves properties of that model. The script
does five things:

- **Theme switch** (`Theme.dfy`). At load it picks the light or the dark
  theme. A stored choice wins; otherwise the operating system's
  dark-scheme preference decides. The toggle button flips the theme and
  stores the new theme's name. `ThemeSwitch` is a class whose fields are
  the body's two theme classes and the stored value.
- **Navigation menu** (`Nav.dfy`). `NavMenu` is a class holding the
  panel's `active` flag and the state of the three-bar icon. The menu
  control flips the panel. A click outside the panel and the control
  closes the panel. A click on an in-page anchor closes the panel and
  asks for a scroll to the target, less the 80-pixel header.
- **Live search** (`Search.dfy`). On each keystroke the input value is
  trimmed and lower-cased. An empty term resets the page. Any other term
  shows exactly the cards whose `data-searchable` attribute or text
  contains it, highlights it inside the shown cards, and shows the
  no-results indicator exactly when no card matched. `SearchPage` is a
  class with an array of cards and the indicator flag. Its methods are
  the input handler, its filtering loop and `resetSearch`. The filtering
  loop's per-card step is the `Searched` function; the loop applies it
  to each card and records whether any card is shown.
- **Highlighting** (`Highlight.dfy`, `Dom.dfy`). `getTextNodes` collects
  the text nodes of a card in document order. It is modelled as a
  recursive method with a loop over the children, over a tree of text
  nodes and elements. Each text node's text is split into plain and
  highlighted segments: a case-insensitive, left-to-right,
  non-overlapping search for the term. A text node with a match is
  replaced by a wrapper element that holds those segments.
  `resetSearch`'s replacement of each highlight span by its text, and the
  `normalize` that follows it, are modelled in `Dom.dfy`.
- **Footer year** (`Footer.dfy`). The first `2026` in the footer
  paragraph is replaced by the current year, written in decimal.

`Strings.dfy` holds the string operations the script relies on:
- `toLowerCase`;
- `trim`, over the full ECMAScript white-space and line-terminator set;
- `includes`;
- `replace` with a string pattern;
- case-insensitive matching.

The script never calls `indexOf`. `IndexOf` is the leftmost-occurrence
search that `Contains` and `ReplaceFirst` are stated with.

`Wrappers.dfy` holds `Option`.

The current year, the stored theme value, the operating system
preference, where a click lands and the `offsetTop` of each anchor
target are parameters. The script reads them from the browser.

## Model

| member | source | states |
|---|---|---|
| Strings.LowerChar | resources/js/main.js:84 | upper-case ASCII letters move to lower case by 32 code points, every other character is kept, and no result is upper-case |
| Strings.ToLower | resources/js/main.js:84 | lower-casing keeps the length and lower-cases each character in place |
| Strings.ToLowerIdempotent | resources/js/main.js:84 | lower-casing twice is the same as lower-casing once |
| Strings.TrimStartSuffix | resources/js/main.js:84 | the start-trimmed string is a suffix of the input, what was dropped is all white space, and the result does not start with white space |
| Strings.Trim | resources/js/main.js:84 | the result is a contiguous slice of the input with only white space cut from either side, and it neither starts nor ends with white space |
| Strings.TrimEmptyIffAllSpace | resources/js/main.js:84-87 | the trimmed value is empty exactly when the input is all white space |
| Strings.IndexOf | resources/js/main.js:100 | the search behind `includes` and `replace`: a position is found exactly when the pattern occurs, and it is the leftmost occurrence |
| Strings.Contains | resources/js/main.js:100 | `includes` holds exactly when the pattern occurs at some index |
| Strings.ReplaceFirst | resources/js/main.js:204 | with no occurrence the string is returned unchanged; otherwise only the leftmost occurrence is replaced, with everything before and after it kept |
| Strings.MatchAtIffOccursLowered | resources/js/main.js:143 | a case-insensitive match at an index is an occurrence of the lower-cased term in the lower-cased text at that index |
| Strings.ContainsLoweredIff | resources/js/main.js:97-100 | `includes` on both lower-cased strings holds exactly when the term occurs ignoring case |
| Theme.InitialTheme | resources/js/main.js:10-16 | the load-time theme decision; it has no contract of its own, and its cases are stated by `Theme.StoredNameWins`, `Theme.AbsentFollowsOs` and `Theme.UnknownStoredIsLight` |
| Theme.StoredNameWins | resources/js/main.js:10-16 | a stored `light` or `dark` gives that theme, whatever the OS prefers |
| Theme.AbsentFollowsOs | resources/js/main.js:10-16 | with nothing stored, or the empty string stored, the theme is dark exactly when the OS prefers dark |
| Theme.UnknownStoredIsLight | resources/js/main.js:10-16 | any other non-empty stored string gives light, even when the OS prefers dark |
| Theme.Flip | resources/js/main.js:20-28 | a toggle always changes the theme |
| Theme.FlipTwice | resources/js/main.js:19-29 | two flips give the original theme |
| Theme.ThemeSwitch.constructor | resources/js/main.js:10-16 | after load exactly one theme class is set, the chosen theme's, and storage is not written |
| Theme.ThemeSwitch.Toggle | resources/js/main.js:19-29 | the dark class flips, exactly one theme class stays set, and the new theme's name is stored |
| Theme.ThemeSwitch.ToggleTwice | resources/js/main.js:19-29 | two clicks restore both classes and leave the original theme's name stored |
| Nav.ScrollTarget | resources/js/main.js:177-195 | no scroll for the bare `#` or for a selector with no target; for any other `href` with a target, a scroll to that target's top less 80 |
| Nav.NavMenu.constructor | resources/js/main.js:32-33 | the menu starts closed with the hamburger icon, so the icon matches the panel |
| Nav.NavMenu.MenuToggleClick | resources/js/main.js:35-49 | the panel flips, and afterwards the icon shows an X exactly when the panel is open |
| Nav.NavMenu.DocumentClick | resources/js/main.js:52-64 | a click outside both the panel and the control closes an open panel and resets the icon; any other click changes nothing; icon and panel stay in step |
| Nav.NavMenu.AnchorClick | resources/js/main.js:173-198 | the requested scroll is `ScrollTarget`; without a target nothing changes; with one the panel ends closed and the icon reset; icon and panel stay in step |
| Dom.TextContent | resources/js/main.js:98 | `textContent`; no contract of its own, and what the other operations keep of it is stated by `Dom.JoinTextLeaves`, `Dom.NormalizeKeepsContent`, `Dom.UnhighlightKeepsContent` and `Highlight.HighlightTree` |
| Dom.TextLeaves | resources/js/main.js:155-170 | the text nodes of a subtree in document order; no contract of its own, and it is the specification of `Dom.FindTextNodes` and `Dom.GetTextNodes` and is joined by `Dom.JoinTextLeaves` |
| Dom.JoinTextLeaves | resources/js/main.js:155-170 | the text nodes, concatenated in order, are the element's text content |
| Dom.FindTextNodes | resources/js/main.js:158-166 | the walk appends exactly the subtree's text nodes, in document order, after those already collected |
| Dom.GetTextNodes | resources/js/main.js:155-170 | the result is the element's text nodes in document order, and they concatenate to its text content |
| Dom.MergeChildren | resources/js/main.js:124 | normalized children hold no empty text node and no two adjacent text nodes; they keep the text content; their element children are exactly the original element children, in the same order, and the text between each two of them is the same |
| Dom.PushChildKeepsLayout | resources/js/main.js:124 | merging one more child keeps the element children and the run of text each text node belongs to |
| Dom.MergedDeterminedByGaps | resources/js/main.js:124 | a merged child list is fixed by its element children and the text between them |
| Dom.MergeChildrenUnique | resources/js/main.js:124 | any merged child list with the original element children and the original text between them is the normalized one, so `Dom.MergeChildren`'s contract determines its result |
| Dom.Normalize | resources/js/main.js:124 | `normalize`; no contract of its own, and its properties are stated by `Dom.MergeChildren`, `Dom.NormalizeKeepsContent`, `Dom.NormalizeIsNormalized` and `Dom.NormalizeKeepsHighlightFree` |
| Dom.MergeTextChildren | resources/js/main.js:124 | children that are all text nodes merge into one text node holding their text, or into none when that text is empty |
| Dom.NormalizeKeepsContent | resources/js/main.js:124 | `normalize` keeps the text content |
| Dom.NormalizeIsNormalized | resources/js/main.js:124 | after `normalize` every element in the subtree has merged children |
| Dom.NormalizeKeepsHighlightFree | resources/js/main.js:124 | `normalize` creates no highlight span |
| Dom.Unhighlight | resources/js/main.js:118-125 | the span removal of `resetSearch`; no contract of its own, and its properties are stated by `Dom.UnhighlightKeepsContent`, `Dom.UnhighlightRemovesSpans`, `Dom.UnhighlightFreeUnchanged` and `Highlight.UnhighlightAfterHighlight` |
| Dom.UnhighlightChild | resources/js/main.js:120-123 | one child of the reset: a span becomes a text node holding its text; no contract of its own, and it is covered by the same rows as `Dom.Unhighlight` |
| Dom.UnhighlightKeepsContent | resources/js/main.js:120-125 | replacing the highlight spans by their text and normalizing keeps the text content |
| Dom.UnhighlightRemovesSpans | resources/js/main.js:120-125 | below a root that is not itself a span, no highlight span remains |
| Dom.UnhighlightFreeUnchanged | resources/js/main.js:118-125 | the reset leaves a subtree without highlight spans exactly as it was |
| Highlight.Segments | resources/js/main.js:143-144 | the `gi` replace's split of a text node into plain and highlighted segments; no contract of its own, and it is pinned down by `Highlight.SegmentsCorrect` and `Highlight.SegmentsUnique` |
| Highlight.SegmentsCorrect | resources/js/main.js:143-144 | the segments concatenate to the text; every highlighted segment is a case-insensitive match; no match starts inside a plain segment; plain segments are non-empty and never adjacent |
| Highlight.SegmentsUnique | resources/js/main.js:143-144 | any segmentation with those properties is the computed one, so the greedy left-to-right scan is the only correct answer |
| Highlight.HitGivesMatch | resources/js/main.js:143-146 | a correct segmentation with a highlighted segment means the term occurs in the text ignoring case |
| Highlight.HitIffMatch | resources/js/main.js:144-146 | some segment is highlighted exactly when the term occurs in the text ignoring case (so this is the case in which the test at line 146 finds the replaced text different) |
| Highlight.MatchGivesHit | resources/js/main.js:143-146 | a match anywhere in the text yields a highlighted segment |
| Highlight.Render | resources/js/main.js:144-148 | the wrapper's children are one node per segment, in order: each highlighted segment becomes a highlight span holding exactly its matched characters, in their original case, and each plain segment a text node; their text is the segments' concatenation |
| Highlight.HighlightNode | resources/js/main.js:142-150 | a text node keeps its text; it is replaced by a plain wrapper element exactly when it contains the term ignoring case, and that wrapper holds the rendered segments; otherwise it is left as it was |
| Highlight.HighlightTree | resources/js/main.js:138-152 | highlighting a card keeps its text content, and its root is a span exactly when it was one |
| Highlight.HighlightAll | resources/js/main.js:141-151 | highlighting a child list keeps its length and its text content, and each child is highlighted on its own |
| Highlight.UnhighlightWrapper | resources/js/main.js:118-125 | resetting the wrapper made for a text node that held the term leaves that wrapper holding one text node with the original text |
| Highlight.UnhighlightAfterHighlight | resources/js/main.js:118-152 | highlighting and then resetting a subtree without spans gives back its structure and text nodes, each text node that held the term inside one plain wrapper element |
| Highlight.UntouchedWithoutMatch | resources/js/main.js:138-152 | when no single text node contains the term, highlighting leaves the tree unchanged |
| Highlight.SplitMatchNotHighlighted | resources/js/main.js:98-102 | a term spread over two text nodes, with neither node containing it alone, is not highlighted, although the card's text contains it |
| Highlight.SplitMatchExample | resources/js/main.js:98-102 | one instance of the above: the text "fo" followed by "o" matches "foo", and nothing is highlighted |
| Search.SearchTerm | resources/js/main.js:84 | the term is empty exactly when the value is all white space; it holds no upper-case letter; trimming and lower-casing bring in no regular-expression metacharacter |
| Search.LowerTermIsLowered | resources/js/main.js:84 | lower-casing the term again does not change it |
| Search.CardMatches | resources/js/main.js:97-100 | the per-card test; no contract of its own, and its meaning is stated by `Search.CardMatchesIgnoringCase` and `Search.SearchesAreIndependent` |
| Search.CardMatchesIgnoringCase | resources/js/main.js:97-100 | the card test holds exactly when the term occurs, ignoring case, in the attribute or in the card's text |
| Search.Searched | resources/js/main.js:97-106 | after a search a card keeps its attribute and its text; it is shown exactly when it matches; a shown card is highlighted by `Highlight.HighlightTree`, and a hidden card's tree is left as it was |
| Search.SearchAll | resources/js/main.js:95-107 | the pass over the cards yields one card per card, in page order |
| Search.SearchAllAt | resources/js/main.js:96-106 | each card after the pass is that card searched on its own, so no card's outcome depends on another |
| Search.Reset | resources/js/main.js:118-131 | after a reset a card is shown and keeps its attribute and its text; unless its root is itself a span, no highlight span remains; a card that had no span is only shown |
| Search.ResetAfterSearch | resources/js/main.js:92-131 | a search then a reset gives back a span-free card shown, with its attribute and structure; a card that matched keeps a plain wrapper around each text node that held the term |
| Search.ResetAll | resources/js/main.js:118-131 | a reset yields one card per card, in page order |
| Search.ResetAllAt | resources/js/main.js:118-131 | each card after a reset is that card reset on its own |
| Search.SearchesAreIndependent | resources/js/main.js:97-131 | highlighting and resetting never change whether a card matches a later term |
| Search.SearchPage.constructor | resources/js/main.js:95 | the page holds the given cards and indicator state |
| Search.SearchPage.OnInput | resources/js/main.js:83-115 | all-white-space input resets every card (`ResetAll`) and hides the indicator; any other input searches every card with the trimmed, lower-cased term (`SearchAll`) and shows the indicator exactly when no card is shown |
| Search.SearchPage.Filter | resources/js/main.js:92-114 | the cards become `SearchAll` of the old cards, and the indicator is shown exactly when no card is visible |
| Search.SearchPage.ResetSearch | resources/js/main.js:118-135 | the cards become `ResetAll` of the old cards, and the indicator is hidden |
| Footer.NatString | resources/js/main.js:204 | a numeral is non-empty, all digits, and has no leading zero except in "0" |
| Footer.NatStringRoundTrip | resources/js/main.js:204 | reading a numeral back gives the number |
| Footer.NatStringInjective | resources/js/main.js:204 | different years are written differently |
| Footer.YearString | resources/js/main.js:204 | a year is written as digits, with a leading minus sign before year zero |
| Footer.YearStringRoundTrip | resources/js/main.js:204 | reading a written year back gives that year |
| Footer.UpdateFooter | resources/js/main.js:201-206 | a footer paragraph exists after the handler exactly when it existed before |
| Footer.NoPlaceholderUnchanged | resources/js/main.js:204 | markup without `2026` is left as it is |
| Footer.PlaceholderReplaced | resources/js/main.js:204 | the text before the first `2026` and everything after it are kept, the year takes its place, and the updated markup contains the year |
| Footer.SameYearUnchanged | resources/js/main.js:201-206 | in 2026 the handler changes nothing |

## Left out

- The DOM itself is reduced to a tree of text nodes and elements.
  Elements carry only a flag marking highlight spans. Event listeners,
  `querySelectorAll`, CSS classes and inline styles are modelled as the
  fields and booleans they decide.
- The icon's three inline transforms are reduced to one flag, "drawn as
  an X".
- `localStorage`, `matchMedia`, `Date` and `offsetTop` are read by the
  script. Here their values are parameters. Writing storage is the
  `stored` field.
- `focus()`, the smooth-scroll animation and the browser's clamping of
  the scroll position are not modelled. `AnchorClick` returns the
  requested position.
- The search-icon handler on narrow screens (lines 72-80) is not
  modelled. It only toggles a class and focuses the input.
- The script crashes when an element it expects is missing, for example a
  card without `data-searchable`. Those crashes are not modelled. Every
  card has an attribute string.
- `document.querySelector` throws on a malformed selector. `Nav.AnchorClick`
  treats any `href` not among the targets as finding nothing.
- Search.SearchPage.OnInput: requires that the input holds no
  regular-expression metacharacter. The script builds a regular
  expression from the term, so a term with metacharacters would follow
  regular-expression semantics, or throw. Those semantics are not
  modelled.
- Strings.ToLower: lower-cases ASCII letters only. JavaScript's
  `toLowerCase` also folds non-ASCII letters. `trim` is modelled
  exactly.
- Highlight.HighlightNode: stops at the list of plain and highlighted
  segments. The script writes that list as HTML into the wrapper's
  `innerHTML`, so text holding `<` or `&` would be re-parsed as markup.
  That re-parsing is not modelled.
- Search.Reset: does not promise the card's original tree after a
  search. The wrapper element that highlighting created stays in the
  card, holding merged text instead of spans, because the script does not
  remove it. `Search.ResetAfterSearch` states exactly which tree comes
  back.
