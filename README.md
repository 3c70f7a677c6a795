# Find-on-page and theme switching of the shreesankalp page script

`script.js` runs once the page has loaded. This project models its two parts that hold
real logic.

**Find on page.** `performSearch` works as follows:
- It trims the search box's value.
- It removes every earlier `mark.highlight` with `removeHighlights`, turning each back into
  its text and normalizing its parent.
- When the query is not blank, it walks the text nodes of the body with a `TreeWalker`.
  It skips text whose parent is `SCRIPT`, `STYLE` or `.highlight`.
- For each text node left, it runs a case-insensitive global regular expression over the
  text. From the matches it builds a fragment: text nodes alternating with
  `<mark class="highlight">` elements. It replaces the node with that fragment once the
  running `foundCount` is positive.
- It reports "no occurrences", "Found N" or "enter a search term".

**Theme.** The `data-theme` attribute of the root element follows:
- the saved `localStorage` item `theme` when it is non-empty;
- otherwise the system's `prefers-color-scheme: dark`.

The toggle button flips the attribute and saves the new value. The reset button forgets the
saved value. A change of the system scheme is applied only while nothing is saved.

Module layout:
- `Strings` (strings.dfy) covers three things:
  - `trim` over the ECMAScript white space and line terminators;
  - the `i` flag's case fold;
  - the leftmost match that `regex.exec` returns for a literal query from a given
    `lastIndex`.
- `Dom` (dom.dfy) models the part of the tree the search touches:
  - A `Document` is a sequence of runs. A run is one parent element with a list of
    consecutive children, each a text node or a `mark.highlight`.
  - It also holds `normalize()` (section 4.4 of the DOM Standard) and the effect of
    `removeHighlights`.
- `Highlight` (highlight.dfy) holds the scan of one text node:
  - `Fragment` is its specification;
  - `HighlightNode` is the loop over `regex.exec`;
  - `ScanRules` is an independent description that admits exactly one fragment, the one
    the scan builds.
- `Search` (search.dfy) holds the walk:
  - `Find` is the specification of `performSearch`;
  - the class `Page` holds the page's runs, with the methods `RemoveHighlights`,
    `PerformSearch`, `Walk` and `WalkRun` proved against it;
  - `FindAll` is the search as evidently intended (see Findings).
- `Theme` (theme.dfy) holds the theme state machine:
  - the step functions `Load`, `Apply`, `SystemChange`, `Toggle` and `Reset`;
  - the class `ThemeController`, whose handlers are proved to perform exactly those steps.

The walk is modelled as the code is written, and the DOM Standard decides what it does. Once
`replaceChild` has detached the walker's current node, `nextNode()` finds neither a next
sibling nor a parent, so it returns null (section 6.2 of the DOM Standard). So the walk ends
after the first text node it rewrites. The alert's wording ("Found N occurrences") shows that
every occurrence was meant to be highlighted. This model follows the code and records the gap
under Findings.

## Model

| member | source | states |
|---|---|---|
| Strings.SkipLeading | script.js:97 | the first offset from a start point that is not white space: everything skipped is white space, and the character there is not |
| Strings.SkipTrailing | script.js:97 | the end of the last character before a point that is not white space: everything skipped is white space, and the character before it is not |
| Strings.TrimIsSlice | script.js:97 | everything `trim` cuts off at either end is white space, and the first and last characters it keeps are not |
| Strings.TrimEmptyIff | script.js:97-100 | the trimmed query is empty exactly when the input is empty or white space only |
| Strings.NextMatch | script.js:116-121 | `regex.exec` from `lastIndex`: a result is a case-insensitive match at or after `lastIndex` with no match before it; no result means no match from `lastIndex` on |
| Strings.NextMatchFindsAny | script.js:121 | `exec` finds something exactly when some match starts at or after `lastIndex` |
| Strings.NextMatchIs | script.js:121 | a match with no earlier one after `lastIndex` is what `exec` returns |
| Strings.LeftmostMatchUnique | script.js:121 | there is only one leftmost match after a given offset |
| Dom.NormalizeSpec | script.js:92 | after `normalize()` no two text nodes are adjacent and none is empty, and the text, the marks and the mark count are unchanged |
| Dom.NormalizeAroundMark | script.js:92 | `normalize()` never merges across a mark: the mark stays in place and the text on each side of it is normalized on its own, so each text stays between the same marks |
| Dom.NormalizeFixed | script.js:92 | `normalize()` leaves an already normalized list unchanged, so it is idempotent |
| Dom.NormalizeTextOnly | script.js:92 | a list of text nodes only is normalized to one text node with all its text, or to nothing when that text is empty |
| Dom.FlattenUnmark | script.js:91 | replacing marks by text nodes with their `textContent` keeps the text |
| Dom.UnhighlightRunSpec | script.js:89-93 | one run after removing highlights: same parent, same text, no mark; a run that held marks is normalized, and a run without marks is unchanged |
| Dom.TextContentUnhighlight | script.js:87-94 | removing highlights keeps the page's text and leaves no mark |
| Dom.UnhighlightSpec | script.js:87-94 | no mark remains, the page's text is unchanged, and every run that held a mark is normalized |
| Dom.UnhighlightIdempotent | script.js:87-94 | running `removeHighlights` a second time changes nothing |
| Dom.FlattenSplice | script.js:139 | `replaceChild(fragment, node)` puts the fragment's text where the node's text was |
| Dom.MarkCountSplice | script.js:139 | `replaceChild(fragment, node)` trades the node's marks for the fragment's |
| Dom.TextContentUpdate | script.js:139 | rewriting one run without changing its text keeps the page's text |
| Dom.DocMarkCountUpdate | script.js:139 | rewriting one run changes the page's mark count by the difference of that run's mark counts |
| Dom.DocMarkCountZero | script.js:143 | the page has no mark exactly when no run has one |
| Highlight.FragmentStep | script.js:121-132 | a match at `i` contributes the text from `lastIndex` to `i` and a mark with the matched text, and the scan resumes just after the match |
| Highlight.FragmentEnd | script.js:135-136 | when `exec` returns null the rest of the text becomes the last text node |
| Highlight.FragmentObeysScanRules | script.js:119-136 | the fragment shows exactly the text; text nodes and marks alternate, starting and ending with text; every mark is a match copied from its own position; no match starts inside a text node |
| Highlight.ScanRulesUnique | script.js:119-136 | at most one fragment obeys the scan rules for a given text and query |
| Highlight.ScanRulesDetermineFragment | script.js:119-136 | any fragment that obeys the scan rules is the one the scan builds |
| Highlight.AlternatingMarkCount | script.js:122 | an alternating fragment of length 2n+1 holds n marks |
| Highlight.FragmentMarkCount | script.js:121-136 | the fragment built for a text node has odd length 2n+1 and holds exactly n marks |
| Highlight.NoMatchFragment | script.js:121-136 | a text without a match is rebuilt as one text node holding all of it |
| Highlight.FragmentHasMark | script.js:121-130 | the fragment holds a mark exactly when the text contains a match |
| Highlight.FragmentText | script.js:119-136 | joining the segments of the fragment gives back exactly the node's text |
| Highlight.FragmentMarksMatch | script.js:127-129 | every mark of the fragment equals the query up to ASCII case |
| Highlight.AaaHasOneMark | script.js:132 | matches do not overlap: in "aaa" the query "aa" gives one mark followed by the text "a" |
| Highlight.AbababMatches | script.js:121-132 | `exec` on "ababab" for "ab" stops at 0, 2 and 4 and then returns null |
| Highlight.AbababHasThreeMarks | script.js:121-133 | matches are taken left to right, one after another: "ababab" with query "ab" gives three marks |
| Highlight.MarksKeepTheirCasing | script.js:116-129 | matching ignores case and each mark keeps the text's own casing: "Aa" with query "a" gives marks "A" and "a" |
| Highlight.ScanRound | script.js:121-133 | one round of the loop appends the text before the match and the mark, and keeps the account "built so far + still to build = whole fragment" |
| Highlight.AppendMatch | script.js:124-130 | the loop body: after appending the text before the match and the mark, the fragment built so far plus the fragment still to build from just after the match is the whole specified fragment; the round adds exactly one mark, and the match ends within the text |
| Highlight.MarkCountRound | script.js:122-130 | each round adds exactly one mark, matching the `foundCount++` |
| Highlight.HighlightNode | script.js:116-136 | the loop over `regex.exec` builds exactly the specified fragment, and the running count grows by exactly its number of marks |
| Search.FirstHitFrom | script.js:107-121 | the first text node at or after a position that is not skipped and holds a match; none exactly when there is no such node |
| Search.FirstHitSpec | script.js:107-121 | the first hit is a hit with no earlier hit, and there is none exactly when no text node is both scanned and matching |
| Search.SpliceMarks | script.js:139 | splicing a fragment whose marks hold the query into a mark-free list gives a list whose marks all hold the query |
| Search.SearchHitSpec | script.js:138-139 | rewriting the first hit keeps the page's text; the page's mark count is the fragment's, which is positive; all marks hold the query |
| Search.SearchAsWrittenSpec | script.js:106-147 | the walk keeps the page's text; it reports no occurrences exactly when no scanned text node holds a match, and then changes nothing; a reported count equals the marks on the page and is positive; every mark holds the query; text under a skipped parent is unchanged |
| Search.UnhighlightUnmarked | script.js:98 | after the highlights are removed no run holds a mark |
| Search.FindEmptyQuery | script.js:96-158 | the "enter a search term" outcome occurs exactly when the input is empty or blank; the old highlights are still removed and no mark is created |
| Search.FindNoMatches | script.js:143-144 | for a non-blank query, "no occurrences" is reported exactly when no scanned text node holds a match, and the page is then just unhighlighted |
| Search.FindCount | script.js:143-147 | a reported count is positive and equals the number of marks on the page afterwards |
| Search.FindPreservesText | script.js:96-141 | the search never changes the page's text, and every mark it leaves holds the trimmed query up to case |
| Search.FindLeavesSkippedRuns | script.js:110-114 | text under `SCRIPT`, `STYLE` or `.highlight` gets no mark from the search |
| Search.HighlightChildrenText | script.js:119-139 | rewriting every text node of a list keeps its text |
| Search.HighlightChildrenMarks | script.js:127-129 | rewriting a mark-free list only makes marks that hold the query |
| Search.HighlightChildrenCount | script.js:121-122 | rewriting a mark-free list makes a mark exactly when one of its text nodes holds a match |
| Search.HighlightAllText | script.js:119-139 | the intended walk keeps the page's text |
| Search.HighlightRunSpec | script.js:107-141 | in the intended walk, a run gets marks exactly when one of its scanned text nodes holds a match, and all its marks hold the query |
| Search.FindAllSpec | script.js:96-147 | the intended search keeps the text; every mark holds the query; each run gets a mark exactly when it holds a hit; it reports no occurrences exactly when there is no hit; a reported count is the page's mark count and is positive |
| Search.WalkStopsAfterFirstRewrite | script.js:107-141 | with two paragraphs that each read "a", the search as written marks only the first and reports one occurrence, while the intended search reports two |
| Search.FirstMark | script.js:88 | the position of the first `mark.highlight` in a sibling list, with only text nodes before it |
| Search.UnmarkOneSpec | script.js:90-92 | turning one mark back into text and normalizing keeps the list's text and gives a normalized list with one mark fewer |
| Search.NormalizedTextIsCanon | script.js:92 | a normalized list with no mark is the single text node, or nothing, that `normalize()` leaves |
| Search.RemoveMarks | script.js:89-93 | the loop over the marks of one parent gives the normalized, mark-free list when there was a mark, and leaves a list without marks unchanged |
| Search.WalkPast | script.js:107-114 | stepping past a node that is skipped or holds no match does not move the first hit |
| Search.WalkNextRun | script.js:107 | at the end of one run the walk continues with the next |
| Search.WalkHit | script.js:138-139 | the walk that reaches the first hit rewrites that node only and reports its mark count |
| Search.WalkEnd | script.js:107-147 | a walk that reaches the end without a hit changes nothing and reports no occurrences |
| Search.Page.constructor | script.js:102-103 | the walk's root, `document.body`, holds exactly the given runs |
| Search.Page.RemoveHighlights | script.js:87-94 | the page's runs become exactly the unhighlighted runs |
| Search.Page.PerformSearch | script.js:96-159 | the new page and the outcome are exactly those of `Find` on the old page and the raw input |
| Search.Page.Walk | script.js:103-147 | the tree walk with its counter leaves the page and outcome of the walk as written |
| Search.Page.WalkRun | script.js:107-140 | one run's part of the walk: either it passes the run unchanged with the count still zero and the first hit further on, or it performs the rewrite of the first hit and ends the walk with a positive count |
| Theme.SystemTheme | script.js:27 | "dark" exactly when the system prefers dark, otherwise "light" |
| Theme.AppliedTheme | script.js:6-18 | the attribute is "dark" exactly for the value "dark", and "light" for anything else |
| Theme.PreferredTheme | script.js:21-31 | the saved value when it is non-empty, otherwise the system theme (an empty saved value counts as absent) |
| Theme.ApplySpec | script.js:6-18 | `applyTheme` sets "dark" only for exactly "dark"; the moon icon shows exactly with "dark" when the button exists; nothing else changes |
| Theme.LoadSpec | script.js:45-47 | after the page loads, it is dark exactly when the saved value is "dark", or, with nothing saved, when the system prefers dark; the state is valid |
| Theme.HandlersPreserveValid | script.js:34-74 | every handler keeps the attribute "dark" or "light" and the icon matching it |
| Theme.SystemChangeSpec | script.js:34-43 | a change of the system scheme is ignored while a non-empty value is saved, and applied otherwise |
| Theme.ToggleSpec | script.js:56-62 | toggling sets "light" after "dark" and "dark" after anything else, and saves that value |
| Theme.ToggleTwice | script.js:56-62 | toggling twice restores the attribute and the icon, with the value now saved |
| Theme.ToggleSurvivesReload | script.js:21-62 | a manual choice is what the next page load applies, and later system changes do not override it |
| Theme.ResetSpec | script.js:68-73 | reset clears the saved value and applies the system theme, and afterwards system changes are followed again |
| Theme.ThemeController.constructor | script.js:45-47 | the controller starts in the page-load state for the saved value and the system scheme |
| Theme.ThemeController.ApplyTheme | script.js:6-18 | the new state is `Apply` of the old state |
| Theme.ThemeController.GetPreferredTheme | script.js:21-31 | returns the preferred theme of the current state |
| Theme.ThemeController.HandleSystemThemeChange | script.js:34-43 | the new state is `SystemChange` of the old state |
| Theme.ThemeController.ToggleClick | script.js:55-63 | the new state is `Toggle` of the old state; the handler exists only when the button does |
| Theme.ThemeController.ResetClick | script.js:66-74 | the new state is `Reset` of the old state; the handler exists only when the button does |

## Left out

- The query is treated as a literal string.
  - `new RegExp(query, 'gi')` also gives meaning to metacharacters.
  - A pattern that can match the empty string would make `exec` loop at one position.
  - A pattern that is not a valid regular expression would throw. None of this is modelled.
- Case folding is ASCII only. Without the `u` flag, the `i` flag of `new RegExp(query, 'gi')` compares characters after ECMAScript's Canonicalize: each UTF-16 code unit is upper-cased, but stays unchanged when the result would be longer than one unit or when a non-ASCII unit would become ASCII (such as 'ſ' or 'ı'). The model applies this to the ASCII letters only.
- Strings are sequences of characters. JavaScript strings are UTF-16 code units, so offsets differ for text outside the Basic Multilingual Plane.
- `alert`, `console.log`, `scrollIntoView` and the footer year are left out. They are output, logging, scrolling and a clock read with no effect on the modelled state.
- The event wiring is left out: `DOMContentLoaded`, `click`, and the `keypress` check for Enter. Each handler is modelled as a method that is called directly.
- `localStorage` and `matchMedia` are modelled as two fields: the saved value and whether the system prefers dark. Storage quotas and failures are not modelled.
- The theme button's `innerHTML` is modelled as the icon it shows (moon or sun).
- The tree is reduced to runs of sibling children under one parent each.
  - Other elements, nesting, and text nodes of one parent split by another element are not modelled.
  - `normalize()` is modelled on the run that held the mark only. The real call also merges text in descendants of that parent.
- `removeHighlights` iterates a static NodeList in document order. The model processes each run's marks in order, which gives the same result.

## Findings

| source | as written | input that shows it | evidently intended | confidence | as-written member | corrected member |
|---|---|---|---|---|---|---|
| script.js:103-141 | `replaceChild(fragment, node)` detaches the walker's current node. `walk.nextNode()` then has no next sibling or parent to climb to and returns null (section 6.2 of the DOM Standard). So the walk ends after the first text node that holds a match. | a body with two paragraphs that each read "a", searched for "a": only the first is marked and "Found 1" is reported | every scanned text node is highlighted and every occurrence counted ("Found 2") | not executed | Search.WalkStopsAfterFirstRewrite | Search.FindAllSpec |
