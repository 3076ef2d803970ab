# Commandeer popup: tab filter, selection and result rows

A Dafny model of the decision logic in the Commandeer browser-extension
popup. The popup lists open tabs and filters them by a search term. It keeps
an "active" row that the arrow keys move. It can switch to a tab or run a web
search. The model covers four components:

- `App` (`src/App.tsx`): the `searchTabs` filter; the branch that reloads or
  filters when the debounced term settles; the `activeTabIndex` arithmetic for
  ArrowDown and ArrowUp; the reset to 0 when the tab list changes; and
  `activateTab`.
- `SearchResults` (`src/components/search-results.tsx`): the tab rows plus
  the optional web-search row; that row's title and descriptor; the
  default-engine lookup; selection flags and tabindexes; and `triggerSearch`.
- `SearchResultsList` (`src/components/search-results-list.tsx`): the
  three-kind `SearchResult` record and its mapping to rows (selection,
  tabindex, React key).
- `SearchResultRow` (`src/components/search-result-row.tsx`): the action
  label, icon precedence, Enter gating, the `is-selected` class and the
  bookmark indicator.

Browser calls are not performed. `browser.tabs.update`, `browser.search.query`
and `window.close` become `Browser.Effect` values, returned in the order the
code issues them. The answers of `browser.tabs.query` and `browser.search.get`
are arguments. Whether a `window` exists is a boolean argument, and so is
whether the awaited `browser.tabs.update` or `browser.search.query` call
resolves: the close that follows an `await` happens only if it does. The settled
(debounced) term and each arrow-key press are discrete events
(`App.Event`). `Js` holds the JavaScript behaviours the code depends on:
`undefined`, `NaN`, the truncating `%`, `toLowerCase`, `includes`, truthiness,
and number-to-string in template literals.

Behaviour worth knowing, each proved by the member named:

- `tabs.length` can be 0 when an arrow key is pressed. The index then becomes
  `NaN` (`x % 0`, `App.ArrowOnEmptyListGivesNaN`), and it stays `NaN` until a
  non-empty list arrives (`App.NaNPersistsUntilNonEmptyList`).
- A list replacement resets the index to 0 only when the new list is
  non-empty. An empty list leaves the old index in place (`App.Step`).
- The web-search row is selected only when `activeTabIndex == tabs.length + 1`.
  The arrow keys keep the index below `tabs.length` while tabs are listed, so
  this happens only with an empty tab list and a stale index of exactly 1.
  That state is reachable: load two tabs, press ArrowDown, then settle on a
  term that matches neither (`SearchResults.StaleIndexSelectsSearchRow`).
- Filtering by the empty string is not the same as the empty-term branch.
  `searchTabs("")` would drop tabs that have neither a title nor a url. The
  empty-term branch reloads every tab (`App.EmptyTermFilterDropsBareTabs`).

One modelling choice follows the wiring in `App`: it hands the raw,
undebounced `search` to `SearchResults`, so the web-search row follows every
keystroke while the tab list follows the debounced term. The model therefore
takes the two terms as separate inputs (`SearchResults.Render` and
`App.TabsForTerm`).

## Model

| member | source | states |
|---|---|---|
| Js.Rem | src/App.tsx:85-92 | JavaScript `%`: `NaN` for a `NaN` operand or a zero divisor; otherwise the remainder of the truncated quotient, carrying the dividend's sign and smaller in size than the divisor |
| Js.Includes | src/App.tsx:45-46 | `includes` holds iff the needle occurs at some position of the haystack; the empty needle occurs everywhere |
| Js.ToLowerCaseIdempotent | src/App.tsx:45-46 | lower-casing leaves no upper-case ASCII letter and is idempotent |
| Js.NumberToString | src/components/search-results-list.tsx:38 | an index interpolates to a non-empty string of decimal digits with no leading zero, except for 0 itself |
| Js.NumberToStringRoundTrip | src/components/search-results-list.tsx:38 | the decimal text interpolated for an index reads back as that index |
| Js.NumberToStringInjective | src/components/search-results-list.tsx:38 | distinct indexes interpolate to distinct texts |
| App.TabMatches | src/App.tsx:44-46 | a tab matches iff it has a title or a url whose lower-cased text contains the lower-cased term at some position |
| App.SearchTabs | src/App.tsx:38-50 | each tab is kept, with its full multiplicity, iff the lower-cased term occurs in its lower-cased title or lower-cased url; a missing title or url never matches; nothing is added |
| App.SearchTabsKeepsOrder | src/App.tsx:43-49 | the kept tabs form an order-preserving subsequence of the queried tabs, witnessed by increasing positions |
| App.SearchTabsIgnoresCase | src/App.tsx:45-46 | two terms with the same lower-case form keep the same tabs |
| App.GitHubTabMatches | src/App.tsx:43-47 | a tab titled "GitHub" at "https://github.com" matches "git", "GIT" (case ignored) and "hub.com" (a url match suffices) |
| App.SearchTabsKeepsAllMatching | src/App.tsx:43-47 | when every tab matches, filtering returns the list unchanged |
| App.TabsForTerm | src/App.tsx:75-81 | the empty settled term shows all queried tabs; a non-empty one shows exactly the matching tabs with their multiplicities, in their original order (an order-preserving subsequence of the queried tabs) |
| App.EmptyTermFilterDropsBareTabs | src/App.tsx:43-47 | the empty-term branch reloads every tab, while filtering by "" keeps all tabs iff each one has a title or a url |
| App.NextIndex | src/App.tsx:83-88 | ArrowDown on a non-empty list moves an in-range index to the next one, wrapping the last to 0; an empty list or a `NaN` index gives `NaN` |
| App.PrevIndex | src/App.tsx:90-95 | ArrowUp on a non-empty list moves an in-range index to the previous one, wrapping 0 to the last; an empty list or a `NaN` index gives `NaN` |
| App.DownThenUp | src/App.tsx:83-95 | ArrowDown then ArrowUp returns an in-range index to itself |
| App.UpThenDown | src/App.tsx:83-95 | ArrowUp then ArrowDown returns an in-range index to itself |
| App.NavigationRoundTrip | src/App.tsx:83-95 | Down then Up, and Up then Down, return to the same in-range index |
| App.ReplaceTabs | src/App.tsx:97-101 | a new list is installed; a non-empty one resets the index to 0, an empty one leaves the index as it was |
| App.Step | src/App.tsx:75-101 | an arrow key keeps the list and moves the index by `NextIndex`/`PrevIndex`; the initial load installs all queried tabs and a settled term installs the tabs for that term; either reset the index to 0 iff the new list is non-empty |
| App.StepKeepsValid | src/App.tsx:75-101 | every event (arrow key, initial load, settled term) keeps the index on a listed tab whenever tabs are listed |
| App.RunKeepsValid | src/App.tsx:83-101 | any sequence of events keeps that invariant, so it holds in every state reachable from the initial index 0 |
| App.ArrowOnEmptyListGivesNaN | src/App.tsx:83-95 | an arrow key with no tabs listed turns the index into `NaN` and leaves the list alone |
| App.NaNPersistsUntilNonEmptyList | src/App.tsx:83-101 | from an empty list with a `NaN` index, every run of arrow keys and empty list answers keeps the list empty and the index `NaN` |
| App.ActivateTabEffects | src/App.tsx:26-36 | no effect iff the id is absent or 0; otherwise exactly two effects when the update resolves and a window exists, else exactly one: the first activates that id, and the close comes only last, after the activation resolves, and only when a window exists |
| SearchResults.FindDefaultEngine | src/components/search-results.tsx:27 | returns nothing iff no engine is default, else the engine at the first default position |
| SearchResults.CurrentSearchEngine | src/components/search-results.tsx:18-31 | the name of the first default engine, or "Google" when none is default |
| SearchResults.SearchRowTab | src/components/search-results.tsx:60-63 | the web-search row shows title `Search for <term>` and url `<engine>: "<term>"`, with no id and no favicon |
| SearchResults.Render | src/components/search-results.tsx:43-70 | one row per tab in input order, with the tab, selection iff index equals position, tabindex position+1, key position and its activation; then, iff the term is non-empty, the web-search row with tabindex `tabs.length+1`, no key, selected iff the index equals `tabs.length+1` |
| SearchResults.SearchRowIsLastAndUnique | src/components/search-results.tsx:56-70 | the web-search row is the only non-tab row, is last, and is present iff the term is non-empty |
| SearchResults.TabindexesDistinct | src/components/search-results.tsx:48-65 | no two rendered rows share a tabindex |
| SearchResults.AtMostOneRowSelected | src/components/search-results.tsx:47-64 | no two rendered rows are selected at once |
| SearchResults.SearchRowSelectedOnlyOnStaleIndex | src/components/search-results.tsx:64 | in any reachable state, the web-search row is selected iff no tabs are listed and the index is 1 |
| SearchResults.StaleIndexSelectsSearchRow | src/components/search-results.tsx:64 | a concrete run (load two tabs, ArrowDown, settle on a term matching neither) renders a selected web-search row as the only row |
| SearchResults.TriggerSearchEffects | src/components/search-results.tsx:20-23 | `triggerSearch` issues the query for the term with `NEW_TAB` disposition first, then closes the window iff the query resolves; nothing else |
| SearchResults.EnterEffects | src/components/tab.tsx:26-30 | Enter produces no effect when no row is selected; every effect it produces comes from the action of a selected row, and every effect of a selected row's action is produced |
| SearchResults.EnterEffectsOfOneSelected | src/components/tab.tsx:26-30 | when exactly one row is selected, Enter produces exactly that row's action effects |
| SearchResults.EnterOnStaleIndexRunsSearch | src/components/search-results.tsx:56-68 | with no tabs listed, the index 1 and a non-empty term, Enter runs exactly `triggerSearch` on the term |
| SearchResults.EnterActivatesSelectedTab | src/components/search-results.tsx:43-68 | with tabs listed in a reachable state, Enter runs exactly `activateTab` on the tab under the index, never the web search, whether or not its awaited call resolves |
| SearchResultRow.EffectiveType | src/components/search-result-row.tsx:26 | an omitted result type renders as "tab" |
| SearchResultRow.ActionTextDistinguishesKinds | src/components/search-result-row.tsx:48-59 | the labels are "Switch to tab", "Open bookmark" and "Search web", and two kinds share a label iff they are the same kind |
| SearchResultRow.GetIcon | src/components/search-result-row.tsx:36-46 | a truthy favicon URL is shown whatever the kind; without one a bookmark gets the bookmark glyph and any other kind the default icon |
| SearchResultRow.Classes | src/components/search-result-row.tsx:63-65 | `result-item` and the item class are always present; `is-selected` and the selected class are present iff the row is selected; no other class appears |
| SearchResultRow.Render | src/components/search-result-row.tsx:61-84 | the row shows the action label iff selected, with its kind's text; the bookmark indicator iff the kind is bookmark; the icon precedence; title, url and tabindex unchanged |
| SearchResultRow.OmittedTypeRendersAsTab | src/components/search-result-row.tsx:26 | a row without a kind renders exactly like a tab row: no indicator, no bookmark glyph, "Switch to tab" when selected |
| SearchResultRow.OnEnter | src/components/search-result-row.tsx:30-34 | Enter fires the row's callback iff the row is selected |
| SearchResultsList.KeyInjective | src/components/search-results-list.tsx:38 | two keys `type-index` are equal only for equal type and equal index |
| SearchResultsList.Rows | src/components/search-results-list.tsx:30-43 | one row per result in order, passing favicon, title, url, type and the result itself unchanged; selected iff the index equals the position; tabindex position+1; key `type-position` |
| SearchResultsList.RowKeysDistinct | src/components/search-results-list.tsx:37-38 | rendered rows have pairwise distinct keys and tabindexes |
| SearchResultsList.ExactlyOneSelected | src/components/search-results-list.tsx:36 | exactly one row is selected when the index lies within the list, none otherwise (including `NaN`) |
| SearchResultsList.EnterHandsOverSelectedResult | src/components/search-results-list.tsx:36-39 | Enter hands exactly the result under the index to the list's callback, or nothing when the index is out of range; without Enter nothing fires |
| SearchResultsList.ReferenceDecidesRowLabel | src/components/search-results-list.tsx:9-10 | for a well-formed result (tab id only on tabs, bookmark node only on bookmarks), a result with a tab id is labelled "Switch to tab" when selected, and one with a bookmark node shows the bookmark indicator |

## Left out

- `src/index.tsx` (DOM bootstrap, dark/light class) and `src/background.ts` (command listener opening the popup): platform plumbing with no decisions.
- `src/components/tab.tsx` as a component: only the props it receives are modelled (`SearchResults.Row`). Its favicon ternary and Enter gating match the `SearchResultRow` model.
- The `browser.*` calls and `window.close`: they are effect values or inputs, and the model does not perform them. `browser.runtime.getPlatformInfo` and the footer's CMD/CTRL label are rendering.
- `useDebounce` (the 150 ms quiet period) and `useKeyPress`: they are not part of this model. The settled term and each key press arrive as discrete events.
- A rejected `browser.tabs.update` or `browser.search.query` promise is modelled only as "the close after it does not happen". The rejection itself surfaces as an unhandled error, which the model does not represent.
- React effect scheduling, async ordering, and a stale `tabs.query` answer arriving after a newer one: this is concurrency. The model applies answers in event order.
- `scrollItemIntoView`, CSS modules and markup. The generated CSS-module class names are stood in for by `SearchResultRow.TabItemClass` and `SearchResultRow.SelectedClass`.
- Bookmark gathering, tree flattening and merging several sources: the code contains none of this, so none is modelled.
- The `default: "Open"` branch of `getActionText`: `ResultType` is a closed union, so the branch cannot be reached. The datatype has no fourth case.
- `onClick` on a row: it calls `onChange` with no condition, so there is nothing to state beyond what `OnEnter` already covers for the callback.
- Js.ToLowerCaseIdempotent: lower-casing is modelled for ASCII letters only, not the full Unicode case mapping of `toLowerCase`.
- App.ActivateTabEffects: tab ids are modelled as integers. Other falsy numbers (`NaN`) cannot occur for a tab id. A negative id such as -1 is truthy and is activated as the code does.
