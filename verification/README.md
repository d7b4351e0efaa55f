# WCAG checklist: filter, search and navigation core in Dafny

This project models the decision logic of `script.js`, the script behind a
WCAG checklist page. Each criterion of the checklist carries a conformance
level badge (A, AA, AAA) and a checkbox. The script:

- hides criteria by level filter and by search term;
- finds the section heading that governs a criterion;
- highlights the first match of the term in each text node, and clears the highlights again;
- lets Enter and Shift+Enter step through the search matches;
- checks or unchecks criteria in bulk;
- counts progress overall and per level.

The page is reduced to immutable values, and every handler is a pure
function over them:

- a criterion is a record: data-level attribute, badge text, text content,
  context chain for the heading lookup, number of labels, checked, hidden;
- a page is the criteria, the checkboxes outside criteria, the level
  filters, the search box value, and the match list with its index;
- an element's text is its sequence of text runs, and a highlighted run is a
  segment of plain and marked pieces.

One assumption holds throughout: each criterion holds exactly one checkbox,
so a criterion has a single `checked` field. The script itself does not
enforce this. It counts and sets every `input[type="checkbox"]` inside a
`.criterion` (script.js:141-142, 176-177, 196, 210). With more checkboxes per
criterion, `Progress.Overall`, `Progress.ForLevel`, `Criteria.CheckAll` and
`Criteria.UncheckAll` would count or set each of them.

Modules: `Wrappers` (Option), `Text` (`toLowerCase`, `trim`, `indexOf`,
`includes`), `Filters`, `Sections` (`findSectionHeader`), `Highlight`,
`Navigator` (`handleSearchKeyDown`), `Criteria` (visibility, match list,
bulk check), `Progress` (counts) and `Session` (the event handlers over a
whole page and the invariant they keep).

Behaviour of the code worth knowing:

- Shift+Enter from index -1 computes `(-2 + n) % n`. For two or more matches
  that is the second-to-last match, not the last (`Navigator.ShiftEnterStep`).
- The index is never clamped. Every rebuild of the match list resets it to -1.
  There is no Home, End, PageUp, PageDown or "accept" key handling, and no
  search is started on demand.
- `toggleFilter` reruns the visibility decision but does not rebuild the match
  list. The list can then point at hidden criteria, and Enter still moves to
  them (`Session.ToggleLeavesStaleMatch`). The invariant "every match is
  visible" holds right after a search (`Session.SearchMatchesAreShown`), not
  in general.
- Emptying the search box runs the filters and returns. It does not reset
  the match list or the index (`Session.ClearedBoxKeepsMatches`).
- No region is excluded from highlighting. The script highlights matching
  h2/h3 headings and the first label of every shown criterion.

JavaScript's `%` truncates toward zero. The model writes it out as
`Navigator.JsRemainder`. On the indices the handler can reach, it agrees with
the Euclidean remainder. The one exception is Shift+Enter with one match from
index -1: JavaScript's `(-1) % 1` yields `-0`, which indexes the array like 0.

## Model

| member | source | states |
|---|---|---|
| Text.Lower | script.js:353 | lower-casing keeps the length, turns each capital A-Z into its small letter 32 code points above, and keeps every other character |
| Text.LowerIdempotent | script.js:353 | lower-casing an already lower-cased term changes nothing, so the term the handlers read is stable |
| Text.LeadingSpaces | script.js:366 | the count of leading characters `trim` removes: all of them are JavaScript white space and the next character is not |
| Text.TrailingSpaces | script.js:366 | the count of trailing characters `trim` removes: all of them are JavaScript white space and the character before them is not |
| Text.Trim | script.js:366 | the trimmed badge text is the contiguous piece of the original that starts at its first non-white-space character, everything after it is white space, and it neither starts nor ends with white space |
| Text.TrimIdempotent | script.js:366 | trimming a trimmed badge text changes nothing |
| Text.TrimPadded | script.js:366 | the inverse view of `trim`: a text that neither starts nor ends with white space, padded with white space on both sides, trims back to itself |
| Text.IndexOf | script.js:553 | `indexOf` is -1 exactly when the term is not included, otherwise the term occurs there and at no earlier position |
| Filters.Toggle | script.js:336-337 | toggling negates the level's flag (a missing level becomes enabled), leaves every other level's flag unchanged and adds only that key |
| Filters.InitialEnablesLevels | script.js:1-5 | at load exactly the levels A, AA and AAA are enabled |
| Filters.ToggleTwice | script.js:336-337 | toggling a level twice restores every level's flag |
| Filters.ToggleKeepsLevels | script.js:336-337 | toggling one of the three levels keeps the filter keys within the three levels |
| Filters.UnknownLevelDisabled | script.js:367 | a level is enabled only when its key is present and true (`Filters.Enabled`, the falsy `undefined` lookup); with keys within the three levels, any other badge text looks up as disabled |
| Sections.LastHeading | script.js:508-512 | the backwards sibling scan finds the last h2/h3 of the list, with none after it, and finds nothing exactly when the list has no heading |
| Sections.SectionHeader | script.js:507-524 | the governing heading is the nearest one: no heading in lower lists of the chain and none after it in its own list; none exactly when the chain has no heading |
| Sections.FindSectionHeader | script.js:507-524 | the script's nested backwards loops return the nearest heading and agree with the level-by-level definition |
| Criteria.BadgeLevel | script.js:365-366 | a criterion without a badge filters as the empty string; otherwise the level is the piece of the badge text that starts at its first non-white-space character, everything after it is white space, and it neither starts nor ends with white space |
| Criteria.PaddedBadgeLevel | script.js:365-366 | a badge reading A, AA or AAA with white space around it filters as exactly that level |
| Criteria.HeaderMatches | script.js:357-374 | the header part of the search holds exactly when the nearest preceding h2 or h3 exists and its lower-cased text includes the term |
| Criteria.ApplyFilters | script.js:357-383 | only the `hidden` flags change, and a criterion is shown exactly when its trimmed badge level is enabled and it matches the search (`Criteria.MatchesSearch`): the term is empty, is in its lower-cased text, or is in its section heading |
| Criteria.UnknownBadgeHidden | script.js:365-383 | with the filters the buttons can produce, a criterion whose badge names no level (or that has no badge) is hidden for every term |
| Criteria.EmptyTermFiltersByLevel | script.js:369-378 | with an empty term a criterion is hidden exactly when its level is disabled |
| Criteria.ApplyFiltersIdempotent | script.js:364-383 | rerunning the visibility decision with the same filters and term changes nothing |
| Criteria.ToggleChangesOnlyThatLevel | script.js:364-383 | after toggling a level, criteria of other badge levels keep their visibility, and criteria of that level that match the search flip it |
| Criteria.VisibleLabels | script.js:598 | the match list holds every label of every non-hidden criterion, nothing else, each once, in document order |
| Criteria.VisibleCount | script.js:418-428 | the result count is the number of positions holding a criterion that is not hidden, so at most the number of criteria and zero exactly when all are hidden |
| Criteria.OneLabelEach | script.js:595-600 | with one label per criterion, the match list is as long as the number of shown criteria |
| Criteria.CheckAll | script.js:195-203 | non-hidden criteria become checked, hidden ones keep their state, no other field changes |
| Criteria.UncheckAll | script.js:209-217 | every criterion becomes unchecked, hidden or not, and no other field changes |
| Criteria.CheckAllIdempotent | script.js:195-200 | checking all twice equals checking all once |
| Criteria.BulkKeepsVisibleLabels | script.js:195-217 | neither bulk operation changes the match list a search would build |
| Highlight.SplitAtFirst | script.js:550-559 | the split exists exactly when the lower-cased text contains the term; the parts concatenate to the text, the middle lower-cases to the term and sits at the first occurrence |
| Highlight.Fragment | script.js:560-571 | the replacing fragment spells the same text as the three parts, holds exactly one span carrying the matched text, with exactly the text before the match ahead of it and the text after it behind it, creates no empty text node, and puts no two text nodes next to each other (at most one before and one after the span) |
| Highlight.HighlightRun | script.js:543-573 | a text node keeps its text, gets a span exactly when it contains the term, gets at most one span whose text lower-cases to the term and which starts at the first occurrence (`indexOf`) of the term, creates at most one non-empty text node on each side of the span, and is untouched otherwise |
| Highlight.HighlightElement | script.js:532-574 | every text run of the element is highlighted on its own: it keeps its text and gets a span exactly when it contains the term |
| Highlight.ClearRun | script.js:447-451 | clearing removes every span and keeps the text |
| Highlight.ClearElement | script.js:447-451 | after clearing no run holds a span and every run keeps its text |
| Highlight.HighlightThenClear | script.js:447-451 | highlighting then clearing gives every run back as the single text node it was (given a non-empty term or non-empty runs) |
| Highlight.ClearIdempotent | script.js:447-451 | clearing twice equals clearing once |
| Highlight.HighlightKeepsText | script.js:550-571 | highlighting leaves an element's text content unchanged |
| Navigator.JsRemainder | script.js:584-585 | JavaScript's remainder lies strictly between -n and n, has the dividend's sign, and differs from the dividend by a multiple of n |
| Navigator.JsRemainderVersusMod | script.js:584-585 | the truncated remainder equals the Euclidean one on non-negative dividends and is n less on negative dividends that n does not divide |
| Navigator.KeyDown | script.js:580-590 | with no matches or a key other than Enter nothing moves; Enter and Shift+Enter from -1 or a match land on a match |
| Navigator.EnterStep | script.js:585 | Enter advances by one and wraps from the last match to the first; from -1 it goes to the first |
| Navigator.ShiftEnterStep | script.js:584 | Shift+Enter steps back by one and wraps from the first to the last; from -1 it goes to n-2 (or 0 when n is 1) |
| Navigator.EnterShiftEnterInverse | script.js:584-585 | Enter then Shift+Enter, and Shift+Enter then Enter, return to the starting match |
| Navigator.EnterPresses | script.js:585 | k Enters from a match advance k places modulo the match count |
| Navigator.EnterCycle | script.js:585 | n Enters from any match return to it |
| Navigator.EnterPressesFromStart | script.js:585 | from -1, k Enters reach match (k-1) mod n |
| Progress.Overall | script.js:141-159 | the progress count `checked/total` is the number of checked criteria out of the number of criteria, so all checked or none checked exactly when the count says so |
| Progress.ForLevel | script.js:176-187 | a level summary `checked/total` is the number of checked criteria whose data-level is that level out of the number of criteria of that level, and is full or empty exactly when all or none of them are checked |
| Progress.LevelsPartitionOverall | script.js:172-189 | when every criterion has one of the three levels, the three summaries add up to the overall count |
| Progress.CheckAllCounts | script.js:195-202 | after checking all, each level keeps its total, never loses checked items, and is full when none of its criteria is hidden |
| Progress.UncheckAllCounts | script.js:209-216 | after unchecking all, each level reads zero out of its old total |
| Session.Load | script.js:1-9 | at load all three levels are enabled, the match list is empty, the index is -1, the criteria, other checkboxes and box are as given, and the invariant holds |
| Session.OnToggleFilter | script.js:336-345 | toggling a level flips only that flag, re-decides visibility with the current term, changes no criterion field but `hidden`, and leaves the match list, index, other checkboxes and box alone |
| Session.OnInput | script.js:444-500 | a search re-decides visibility and changes no criterion field but `hidden`; an empty term keeps the match list and index, any other term makes the list exactly the labels of the shown criteria and resets the index to -1 |
| Session.UpdateSearchMatches | script.js:595-600 | the match index is reset to -1 and nothing but the match list changes; an empty term empties the list, any other term makes it exactly the labels of the criteria not hidden, in document order |
| Session.OnKeyDown | script.js:580-590 | a key press only changes the index, and Enter lands on a match whenever there is one |
| Session.OnCheckAll | script.js:195-203 | only the criteria list changes; shown criteria become checked and hidden ones are untouched |
| Session.OnUncheckAll | script.js:209-217 | every checkbox on the page, including those outside criteria, ends unchecked, and no other criterion field or page part changes |
| Session.OnCheckboxChange | script.js:121-130 | ticking or clearing one criterion's checkbox sets that criterion's `checked` and changes nothing else; a position with no criterion changes nothing |
| Session.Step | script.js:37-57 | the event wiring: a checkbox change touches only the criteria, only a filter toggle changes the filters, only typing changes the box, a key press changes nothing but the index, and the bulk buttons and filter toggles leave the match list and index alone |
| Session.StepKeepsValid | script.js:580-600 | every handler keeps the index in [-1, number of matches) and every match pointing at an existing label |
| Session.RunKeepsValid | script.js:580-600 | any sequence of events (checkbox changes, filter toggles, typing, key presses, bulk buttons) keeps that invariant |
| Session.SearchMatchesAreShown | script.js:470-495 | right after a non-empty search every match is shown, its level is enabled, it matches the term, the list is in document order and the index is -1 |
| Session.SearchThenEnterTwice | script.js:580-600 | after a non-empty search with two or more matches, Enter selects the first match and a second Enter the second |
| Session.ToggleLeavesStaleMatch | script.js:336-345 | on a one-criterion page, searching and then switching its level off leaves a match whose criterion is hidden, and Enter selects it |
| Session.ClearedBoxKeepsMatches | script.js:453-456 | emptying the search box keeps the old match list, and Enter still selects the old match |
| Session.BulkKeepsNavigation | script.js:195-217 | the bulk buttons change neither the match list nor the index, and keep every match visible if it was |
| Session.SearchInfo | script.js:417-437 | the search info is blank for an empty term and "no results" exactly when every criterion is hidden; otherwise it gives the number of shown criteria with the one / two-to-four / five-or-more plural form |
| Session.InfoCountIsMatchCount | script.js:417-437 | with one label per criterion, the count reported after a search equals the length of the match list |

## Left out

- Text.Lower: covers ASCII letters only. JavaScript's `toLowerCase` maps all of Unicode and can change a string's length, which would break the split positions.
- Filters.Enabled: reads only the filter map. A badge text naming a property inherited by every JavaScript object, such as `constructor`, would look up as truthy in the script.
- DOM mechanics are not modelled: tree walkers, `replaceChild`, `normalize` as a tree operation, CSS class and ARIA writes, `scrollIntoView`, focus and `tabindex`. This includes the label key handler (script.js:76-93) and the `checked` class sync (script.js:111-134).
- `updateSectionVisibility` (script.js:393-411) only writes display classes: headings are always shown and intros are hidden during a search. It is not modelled.
- Persistence is not modelled: localStorage, the JSON file export and import, `alert` and `window.print` (script.js:223-329). They are I/O.
- Theme toggling (script.js:606-617) is not modelled. It is a class flip with a storage write. So a change of a checkbox outside the criteria is not a `Session.Event`; of the modelled handlers, only `uncheckAll` writes those.
- Percentages are not modelled. `Math.round` works on floating point (script.js:143-152, 181); the model keeps integer counts.
- `updateSearchInfo` message text and colour are not modelled, nor its early return when the info element is missing. Only the count and the plural form are kept.
- Session.Page keeps no highlight markup. Highlighting never changes text content (Highlight.HighlightKeepsText), so no decision depends on it.
