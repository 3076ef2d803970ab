/** The popup's top-level component: the tab filter run on every settled
    search term, the active-row index and how the arrow keys and list
    replacements move it, and the activation of a chosen tab.
    Asynchronous `browser.tabs.query` results arrive here as arguments.
 */
module App {
  import opened Js
  import opened Browser

  // ---------------------------------------------------------------- filter

  /** The predicate `searchTabs` hands to `Array.filter`: the lower-cased
      term occurs in the lower-cased title or in the lower-cased url; a
      missing title or url never matches. */
  predicate TabMatches(tab: Tab, term: string)
    ensures TabMatches(tab, term) <==>
      || (tab.title.Some? && exists i :: OccursAt(ToLowerCase(tab.title.value), ToLowerCase(term), i))
      || (tab.url.Some? && exists i :: OccursAt(ToLowerCase(tab.url.value), ToLowerCase(term), i))
  {
    var needle := ToLowerCase(term);
    || (tab.title.Some? && Includes(ToLowerCase(tab.title.value), needle))
    || (tab.url.Some? && Includes(ToLowerCase(tab.url.value), needle))
  }

  /** The tabs `searchTabs` keeps, in their original order. */
  function SearchTabs(allTabs: seq<Tab>, term: string): (kept: seq<Tab>)
    ensures |kept| <= |allTabs|
    ensures forall t :: multiset(kept)[t] == if TabMatches(t, term) then multiset(allTabs)[t] else 0
    ensures forall t :: t in kept <==> t in allTabs && TabMatches(t, term)
  {
    if |allTabs| == 0 then []
    else
      var rest := SearchTabs(allTabs[1..], term);
      assert allTabs == [allTabs[0]] + allTabs[1..];
      assert multiset(allTabs) == multiset{allTabs[0]} + multiset(allTabs[1..]);
      if TabMatches(allTabs[0], term) then [allTabs[0]] + rest else rest
  }

  /** `f` lists, in increasing order, positions of `whole` whose elements
      spell out `part`: `part` is an order-preserving subsequence of
      `whole`. */
  ghost predicate SubsequenceVia<T>(f: seq<nat>, part: seq<T>, whole: seq<T>) {
    && |f| == |part|
    && (forall k :: 0 <= k < |f| ==> f[k] < |whole| && whole[f[k]] == part[k])
    && (forall k, l :: 0 <= k < l < |f| ==> f[k] < f[l])
  }

  function Shift(f: seq<nat>): (g: seq<nat>)
    ensures |g| == |f|
    ensures forall k :: 0 <= k < |f| ==> g[k] == f[k] + 1
  {
    seq(|f|, k requires 0 <= k < |f| => f[k] + 1)
  }

  /** A subsequence of the tail is one of the whole list, with every
      position moved up by one; putting the head in front of both keeps
      that. */
  lemma SubsequenceOfTail<T>(f: seq<nat>, part: seq<T>, whole: seq<T>)
    requires |whole| > 0
    requires SubsequenceVia(f, part, whole[1..])
    ensures SubsequenceVia(Shift(f), part, whole)
    ensures SubsequenceVia([0] + Shift(f), [whole[0]] + part, whole)
  {
    var g := [0] + Shift(f);
    assert forall k :: 1 <= k < |g| ==> g[k] == f[k - 1] + 1;
  }

  /** Filtering keeps tabs in their original order: it returns the
      positions of the kept tabs in the input. */
  lemma {:induction false} SearchTabsKeepsOrder(allTabs: seq<Tab>, term: string) returns (f: seq<nat>)
    ensures SubsequenceVia(f, SearchTabs(allTabs, term), allTabs)
  {
    if |allTabs| == 0 {
      f := [];
    } else {
      var rest := SearchTabs(allTabs[1..], term);
      var g := SearchTabsKeepsOrder(allTabs[1..], term);
      SubsequenceOfTail(g, rest, allTabs);
      if TabMatches(allTabs[0], term) {
        f := [0] + Shift(g);
      } else {
        f := Shift(g);
      }
    }
  }

  /** Case does not matter: two terms with the same lower-case form keep
      the same tabs. */
  lemma {:induction false} SearchTabsIgnoresCase(allTabs: seq<Tab>, term1: string, term2: string)
    requires ToLowerCase(term1) == ToLowerCase(term2)
    ensures SearchTabs(allTabs, term1) == SearchTabs(allTabs, term2)
  {
    if |allTabs| > 0 {
      SearchTabsIgnoresCase(allTabs[1..], term1, term2);
    }
  }

  /** A tab titled "GitHub" at "https://github.com" is found by "git", by
      "GIT" (case is ignored) and by "hub.com" (a url match suffices). */
  lemma GitHubTabMatches()
    ensures var t := Tab(Some(1), Some("GitHub"), Some("https://github.com"), None);
      TabMatches(t, "git") && TabMatches(t, "GIT") && TabMatches(t, "hub.com")
  {
    var title, url := ToLowerCase("GitHub"), ToLowerCase("https://github.com");
    assert title == "github";
    assert url == "https://github.com";
    assert ToLowerCase("GIT") == ToLowerCase("git") == "git";
    assert OccursAt(title, "git", 0);
    assert OccursAt(url, "hub.com", 11);
    assert ToLowerCase("hub.com") == "hub.com";
  }

  /** The list the popup shows once the search term has settled: every
      tab for the empty term, the `searchTabs` result otherwise. */
  function TabsForTerm(debouncedTerm: string, allTabs: seq<Tab>): (shown: seq<Tab>)
    ensures |debouncedTerm| == 0 ==> shown == allTabs
    ensures |debouncedTerm| > 0 ==>
      forall t :: multiset(shown)[t] == if TabMatches(t, debouncedTerm) then multiset(allTabs)[t] else 0
    ensures |debouncedTerm| > 0 ==> exists f :: SubsequenceVia(f, shown, allTabs)
  {
    if |debouncedTerm| > 0 then
      var kept := SearchTabs(allTabs, debouncedTerm);
      assert exists f :: SubsequenceVia(f, kept, allTabs) by {
        var f := SearchTabsKeepsOrder(allTabs, debouncedTerm);
      }
      kept
    else allTabs
  }

  /** Filtering every tab by itself keeps all of them. */
  lemma {:induction false} SearchTabsKeepsAllMatching(allTabs: seq<Tab>, term: string)
    requires forall k :: 0 <= k < |allTabs| ==> TabMatches(allTabs[k], term)
    ensures SearchTabs(allTabs, term) == allTabs
  {
    if |allTabs| > 0 {
      SearchTabsKeepsAllMatching(allTabs[1..], term);
    }
  }

  /** The empty term is not the same as filtering by "": `searchTabs` with
      "" would still drop every tab that has neither a title nor a url,
      while the empty-term branch reloads them all. The two agree exactly
      when every tab has a title or a url. */
  lemma EmptyTermFilterDropsBareTabs(allTabs: seq<Tab>)
    ensures TabsForTerm("", allTabs) == allTabs
    ensures SearchTabs(allTabs, "") == allTabs
            <==> forall k :: 0 <= k < |allTabs| ==> allTabs[k].title.Some? || allTabs[k].url.Some?
  {
    var kept := SearchTabs(allTabs, "");
    forall t: Tab | t.title.Some? || t.url.Some?
      ensures TabMatches(t, "")
    {
      var s := if t.title.Some? then t.title.value else t.url.value;
      assert OccursAt(ToLowerCase(s), ToLowerCase(""), 0);
    }
    if forall k :: 0 <= k < |allTabs| ==> allTabs[k].title.Some? || allTabs[k].url.Some? {
      SearchTabsKeepsAllMatching(allTabs, "");
    } else {
      var k :| 0 <= k < |allTabs| && allTabs[k].title.None? && allTabs[k].url.None?;
      assert allTabs[k] in allTabs;
      assert allTabs[k] !in kept;
    }
  }

  // ------------------------------------------------------------- selection

  /** The popup state the selection logic depends on: the listed tabs and
      `activeTabIndex`, a JavaScript number that starts at 0. */
  datatype Popup = Popup(tabs: seq<Tab>, activeTabIndex: Num)

  const Initial: Popup := Popup([], Int(0))

  /** What can happen to that state: an arrow key goes down, the initial
      `tabs.query` answers, or the debounced term settles and its query
      answers with `allTabs`. */
  datatype Event =
    | ArrowDown
    | ArrowUp
    | TabsLoaded(allTabs: seq<Tab>)
    | TermSettled(term: string, allTabs: seq<Tab>)

  /** The index after ArrowDown: one further down, wrapping from the last
      row to the first; `(activeTabIndex + 1) % tabs.length`. */
  function NextIndex(i: Num, n: nat): (r: Num)
    ensures n == 0 ==> r.NaN?
    ensures i.NaN? ==> r.NaN?
    ensures n > 0 && i.Int? && 0 <= i.v < n ==> r == Int(if i.v == n - 1 then 0 else i.v + 1)
  {
    assert n > 0 && i.Int? && 0 <= i.v < n ==> Rem(Int(i.v + 1), n) == Int(if i.v == n - 1 then 0 else i.v + 1) by {
      if n > 0 && i.Int? && 0 <= i.v < n {
        RemBelowTwice(i.v + 1, n);
      }
    }
    Rem(Add(i, 1), n)
  }

  /** The index after ArrowUp: one further up, wrapping from the first
      row to the last; `(activeTabIndex - 1 + tabs.length) % tabs.length`. */
  function PrevIndex(i: Num, n: nat): (r: Num)
    ensures n == 0 ==> r.NaN?
    ensures i.NaN? ==> r.NaN?
    ensures n > 0 && i.Int? && 0 <= i.v < n ==> r == Int(if i.v == 0 then n - 1 else i.v - 1)
  {
    assert n > 0 && i.Int? && 0 <= i.v < n ==> Rem(Int(i.v - 1 + n), n) == Int(if i.v == 0 then n - 1 else i.v - 1) by {
      if n > 0 && i.Int? && 0 <= i.v < n {
        RemBelowTwice(i.v - 1 + n, n);
      }
    }
    Rem(Add(Add(i, -1), n), n)
  }

  /** Down then up returns to the same row. */
  lemma DownThenUp(i: nat, n: nat)
    requires i < n
    ensures PrevIndex(NextIndex(Int(i), n), n) == Int(i)
  {
    var d := NextIndex(Int(i), n);
    assert d.Int? && 0 <= d.v < n;
  }

  /** Up then down returns to the same row. */
  lemma UpThenDown(i: nat, n: nat)
    requires i < n
    ensures NextIndex(PrevIndex(Int(i), n), n) == Int(i)
  {
    var u := PrevIndex(Int(i), n);
    assert u.Int? && 0 <= u.v < n;
  }

  /** Down then up, or up then down, returns to the same row. */
  lemma NavigationRoundTrip(i: nat, n: nat)
    requires i < n
    ensures PrevIndex(NextIndex(Int(i), n), n) == Int(i)
    ensures NextIndex(PrevIndex(Int(i), n), n) == Int(i)
  {
    DownThenUp(i, n);
    UpThenDown(i, n);
  }

  /** The effect on `tabs` change: a non-empty list resets the index to 0,
      an empty one leaves it as it was. */
  function ReplaceTabs(p: Popup, newTabs: seq<Tab>): (q: Popup)
    ensures q.tabs == newTabs
    ensures |newTabs| > 0 ==> q.activeTabIndex == Int(0)
    ensures |newTabs| == 0 ==> q.activeTabIndex == p.activeTabIndex
  {
    Popup(newTabs, if |newTabs| > 0 then Int(0) else p.activeTabIndex)
  }

  /** One reaction of the component: an arrow key moves only the index; a
      query answer replaces the list (all tabs on load, the tabs for the
      settled term otherwise), resetting the index when that list is
      non-empty. */
  function Step(p: Popup, e: Event): (q: Popup)
    ensures e.ArrowDown? ==> q.tabs == p.tabs && q.activeTabIndex == NextIndex(p.activeTabIndex, |p.tabs|)
    ensures e.ArrowUp? ==> q.tabs == p.tabs && q.activeTabIndex == PrevIndex(p.activeTabIndex, |p.tabs|)
    ensures e.TabsLoaded? ==> q.tabs == e.allTabs
    ensures e.TermSettled? ==> q.tabs == TabsForTerm(e.term, e.allTabs)
    ensures (e.TabsLoaded? || e.TermSettled?) ==>
      q.activeTabIndex == if |q.tabs| > 0 then Int(0) else p.activeTabIndex
  {
    match e
    case ArrowDown => p.(activeTabIndex := NextIndex(p.activeTabIndex, |p.tabs|))
    case ArrowUp => p.(activeTabIndex := PrevIndex(p.activeTabIndex, |p.tabs|))
    case TabsLoaded(allTabs) => ReplaceTabs(p, allTabs)
    case TermSettled(term, allTabs) => ReplaceTabs(p, TabsForTerm(term, allTabs))
  }

  function Run(p: Popup, events: seq<Event>): Popup
    decreases |events|
  {
    if |events| == 0 then p else Run(Step(p, events[0]), events[1..])
  }

  /** Whenever tabs are listed, the index names one of them. */
  ghost predicate Valid(p: Popup) {
    |p.tabs| > 0 ==> p.activeTabIndex.Int? && 0 <= p.activeTabIndex.v < |p.tabs|
  }

  /** Every event keeps the index on a listed tab. */
  lemma StepKeepsValid(p: Popup, e: Event)
    requires Valid(p)
    ensures Valid(Step(p, e))
  {
  }

  /** Any run of events from the initial state keeps the index on a listed
      tab. */
  lemma {:induction false} RunKeepsValid(p: Popup, events: seq<Event>)
    requires Valid(p)
    ensures Valid(Run(p, events))
    decreases |events|
  {
    if |events| > 0 {
      StepKeepsValid(p, events[0]);
      RunKeepsValid(Step(p, events[0]), events[1..]);
    }
  }

  /** An arrow key with no tabs listed turns the index into NaN. */
  lemma ArrowOnEmptyListGivesNaN(p: Popup)
    requires |p.tabs| == 0
    ensures Step(p, ArrowDown).activeTabIndex.NaN?
    ensures Step(p, ArrowUp).activeTabIndex.NaN?
    ensures Step(p, ArrowDown).tabs == p.tabs
  {
  }

  /** The event installs no tabs: an arrow key, or a query answer whose
      list is empty. */
  predicate LeavesListEmpty(e: Event) {
    match e
    case ArrowDown => true
    case ArrowUp => true
    case TabsLoaded(allTabs) => |allTabs| == 0
    case TermSettled(term, allTabs) => |TabsForTerm(term, allTabs)| == 0
  }

  /** Once the index is NaN with no tabs listed, it stays NaN through any
      run in which no non-empty list arrives. */
  lemma {:induction false} NaNPersistsUntilNonEmptyList(p: Popup, events: seq<Event>)
    requires |p.tabs| == 0 && p.activeTabIndex.NaN?
    requires forall k :: 0 <= k < |events| ==> LeavesListEmpty(events[k])
    ensures Run(p, events).activeTabIndex.NaN?
    ensures |Run(p, events).tabs| == 0
    decreases |events|
  {
    if |events| > 0 {
      var q := Step(p, events[0]);
      assert LeavesListEmpty(events[0]);
      assert |q.tabs| == 0 && q.activeTabIndex.NaN?;
      NaNPersistsUntilNonEmptyList(q, events[1..]);
    }
  }

  // ------------------------------------------------------------ activation

  /** `activateTab`: nothing when the tab's id is falsy (absent or 0);
      otherwise make the tab active and, once that awaited call resolves,
      close the popup window if there is one. A rejected call ends the
      handler before the close. */
  function ActivateTabEffects(tab: Tab, updateResolves: bool, windowOpen: bool): (effects: seq<Effect>)
    ensures effects == [] <==> !TruthyInt(tab.id)
    ensures TruthyInt(tab.id) ==> |effects| == if updateResolves && windowOpen then 2 else 1
    ensures effects != [] ==> effects[0] == ActivateTab(tab.id.value)
    ensures CloseWindow in effects <==> TruthyInt(tab.id) && updateResolves && windowOpen
    ensures forall j :: 0 <= j < |effects| && effects[j] == CloseWindow ==> j == |effects| - 1 && 0 < j
  {
    if !TruthyInt(tab.id) then []
    else [ActivateTab(tab.id.value)] + (if updateResolves && windowOpen then [CloseWindow] else [])
  }
}
