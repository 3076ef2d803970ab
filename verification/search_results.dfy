/** The tabs-plus-web-search result list (`SearchResults`): one row per
    listed tab, then, for a non-empty raw search term, a synthetic row that
    runs a web search with the default engine. Each row is the `Tab`
    component's props; what a row does when activated is an action value
    whose effects `ActionEffects` spells out.
 */
module SearchResults {
  import opened Js
  import opened Browser
  import App

  /** The engine name shown before `browser.search.get()` answers, and
      kept when no engine is marked default. */
  const InitialEngineName: string := "Google"

  /** `engines.find((e) => e.isDefault)`: the first default engine. */
  function FindDefaultEngine(engines: seq<SearchEngine>): (found: Option<SearchEngine>)
    ensures found.None? <==> forall k :: 0 <= k < |engines| ==> !engines[k].isDefault
    ensures found.Some? ==> exists k :: 0 <= k < |engines| && engines[k] == found.value && FirstDefaultAt(engines, k)
  {
    if |engines| == 0 then None
    else if engines[0].isDefault then
      assert FirstDefaultAt(engines, 0);
      Some(engines[0])
    else
      var found := FindDefaultEngine(engines[1..]);
      assert forall k :: 1 <= k < |engines| ==> engines[k] == engines[1..][k - 1];
      assert found.Some? ==> exists k :: 0 <= k < |engines| && engines[k] == found.value && FirstDefaultAt(engines, k) by {
        if found.Some? {
          var j :| 0 <= j < |engines[1..]| && engines[1..][j] == found.value && FirstDefaultAt(engines[1..], j);
          assert FirstDefaultAt(engines, j + 1);
        }
      }
      found
  }

  /** Engine `k` is default and no earlier one is. */
  ghost predicate FirstDefaultAt(engines: seq<SearchEngine>, k: int) {
    && 0 <= k < |engines|
    && engines[k].isDefault
    && forall j :: 0 <= j < k ==> !engines[j].isDefault
  }

  /** `currentSearchEngine` once `findDefaultEngine` has run. */
  function CurrentSearchEngine(engines: seq<SearchEngine>): (name: string)
    ensures (forall k :: 0 <= k < |engines| ==> !engines[k].isDefault) ==> name == InitialEngineName
    ensures forall k :: FirstDefaultAt(engines, k) ==> name == engines[k].name
  {
    match FindDefaultEngine(engines)
    case Some(engine) => engine.name
    case None => InitialEngineName
  }

  /** `ResultType` of the `Tab` component. */
  datatype RowType = TabType | SearchType

  /** What a row's `onChange` does: `activateTab(tab)` for a tab row,
      `triggerSearch(term)` for the web-search row. */
  datatype RowAction = ActivateTabAction(tab: Tab) | TriggerSearch(term: string)

  /** The props of one rendered `Tab` row; `key` is absent on the web-search
      row. */
  datatype Row = Row(tab: Tab, isSelected: bool, tabindex: int, key: Option<int>, resultType: RowType, onChange: RowAction)

  /** The tab-shaped record the web-search row displays. */
  function SearchRowTab(searchTerm: string, engine: string): (t: Tab)
    ensures t.title == Some("Search for " + searchTerm)
    ensures t.url == Some(engine + ": \"" + searchTerm + "\"")
    ensures t.id.None? && t.favIconUrl.None?
  {
    Tab(None, Some("Search for " + searchTerm), Some(engine + ": \"" + searchTerm + "\""), None)
  }

  /** The rows `SearchResults` renders, in order. */
  function Render(tabs: seq<Tab>, activeTabIndex: Num, searchTerm: string, engine: string): (rows: seq<Row>)
    ensures |rows| == |tabs| + (if searchTerm != "" then 1 else 0)
    ensures forall k :: 0 <= k < |tabs| ==>
      && rows[k].tab == tabs[k]
      && (rows[k].isSelected <==> activeTabIndex == Int(k))
      && rows[k].tabindex == k + 1
      && rows[k].key == Some(k)
      && rows[k].resultType == TabType
      && rows[k].onChange == ActivateTabAction(tabs[k])
    ensures searchTerm != "" ==>
      && rows[|tabs|].tab == SearchRowTab(searchTerm, engine)
      && (rows[|tabs|].isSelected <==> activeTabIndex == Int(|tabs| + 1))
      && rows[|tabs|].tabindex == |tabs| + 1
      && rows[|tabs|].key.None?
      && rows[|tabs|].resultType == SearchType
      && rows[|tabs|].onChange == TriggerSearch(searchTerm)
  {
    var tabRows := seq(|tabs|, k requires 0 <= k < |tabs| =>
      Row(tabs[k], activeTabIndex == Int(k), k + 1, Some(k), TabType, ActivateTabAction(tabs[k])));
    if searchTerm == "" then tabRows
    else
      tabRows + [Row(SearchRowTab(searchTerm, engine), activeTabIndex == Int(|tabs| + 1), |tabs| + 1,
                     None, SearchType, TriggerSearch(searchTerm))]
  }

  /** The web-search row appears once, last, exactly when the term is
      non-empty: every other row is a tab row. */
  lemma SearchRowIsLastAndUnique(tabs: seq<Tab>, activeTabIndex: Num, searchTerm: string, engine: string)
    ensures var rows := Render(tabs, activeTabIndex, searchTerm, engine);
      && (forall k :: 0 <= k < |rows| && rows[k].resultType == SearchType ==> k == |rows| - 1)
      && (searchTerm != "" <==> |rows| > 0 && rows[|rows| - 1].resultType == SearchType)
  {
  }

  /** No two rows share a tabindex. */
  lemma TabindexesDistinct(tabs: seq<Tab>, activeTabIndex: Num, searchTerm: string, engine: string)
    ensures var rows := Render(tabs, activeTabIndex, searchTerm, engine);
      forall i, j :: 0 <= i < j < |rows| ==> rows[i].tabindex != rows[j].tabindex
  {
  }

  /** At most one row is selected, and with the index on a listed tab it is
      that tab's row. */
  lemma AtMostOneRowSelected(tabs: seq<Tab>, activeTabIndex: Num, searchTerm: string, engine: string)
    ensures var rows := Render(tabs, activeTabIndex, searchTerm, engine);
      forall i, j :: 0 <= i < j < |rows| ==> !(rows[i].isSelected && rows[j].isSelected)
  {
  }

  /** The web-search row is selected only for the index `tabs.length + 1`,
      which the arrow keys never produce while tabs are listed: in any
      reachable popup state it needs an empty tab list with a stale index
      of exactly 1. */
  lemma SearchRowSelectedOnlyOnStaleIndex(p: App.Popup, searchTerm: string, engine: string)
    requires App.Valid(p)
    requires searchTerm != ""
    ensures Render(p.tabs, p.activeTabIndex, searchTerm, engine)[|p.tabs|].isSelected
            <==> |p.tabs| == 0 && p.activeTabIndex == Int(1)
  {
  }

  /** That stale state is reachable: load two tabs, press ArrowDown, then
      settle on a term that matches neither; the web-search row is then the
      only row and is selected. */
  lemma StaleIndexSelectsSearchRow()
    ensures var t := Tab(Some(1), None, None, None);
      var p := App.Run(App.Initial, [App.TabsLoaded([t, t]), App.ArrowDown, App.TermSettled("x", [t, t])]);
      var rows := Render(p.tabs, p.activeTabIndex, "x", InitialEngineName);
      |rows| == 1 && rows[0].isSelected && rows[0].resultType == SearchType
  {
    var t := Tab(Some(1), None, None, None);
    assert !App.TabMatches(t, "x");
    var p1 := App.Step(App.Initial, App.TabsLoaded([t, t]));
    var p2 := App.Step(p1, App.ArrowDown);
    assert p2 == App.Popup([t, t], Int(1));
    assert App.SearchTabs([t, t], "x") == [];
    var p3 := App.Step(p2, App.TermSettled("x", [t, t]));
    assert p3 == App.Popup([], Int(1));
    var events := [App.TabsLoaded([t, t]), App.ArrowDown, App.TermSettled("x", [t, t])];
    assert events[1..][1..][1..] == [];
    assert App.Run(App.Initial, events) == App.Run(p1, events[1..]) == App.Run(p2, events[1..][1..]);
    assert App.Run(p2, events[1..][1..]) == App.Run(p3, []);
  }

  /** `triggerSearch(term)`: run the query in a new tab and, only once that
      awaited call resolves, close the popup. A rejected query ends the
      handler before the close. */
  function TriggerSearchEffects(term: string, queryResolves: bool): (effects: seq<Effect>)
    ensures |effects| == if queryResolves then 2 else 1
    ensures effects[0].SearchQuery? && effects[0].text == term && effects[0].disposition == NewTab
    ensures queryResolves ==> effects[1] == CloseWindow
  {
    [SearchQuery(term, NewTab)] + (if queryResolves then [CloseWindow] else [])
  }

  /** The platform calls a row's `onChange` makes; `resolves` says whether
      its awaited browser call resolves. */
  function ActionEffects(action: RowAction, resolves: bool, windowOpen: bool): seq<Effect> {
    match action
    case ActivateTabAction(tab) => App.ActivateTabEffects(tab, resolves, windowOpen)
    case TriggerSearch(term) => TriggerSearchEffects(term, resolves)
  }

  /** Enter: every selected `Tab` row runs its `onChange`, in row order;
      unselected rows do nothing. */
  function EnterEffects(rows: seq<Row>, resolves: bool, windowOpen: bool): (effects: seq<Effect>)
    ensures (forall k :: 0 <= k < |rows| ==> !rows[k].isSelected) ==> effects == []
    ensures forall e :: e in effects ==>
      exists k :: 0 <= k < |rows| && rows[k].isSelected && e in ActionEffects(rows[k].onChange, resolves, windowOpen)
    ensures forall k :: 0 <= k < |rows| && rows[k].isSelected ==>
      forall e :: e in ActionEffects(rows[k].onChange, resolves, windowOpen) ==> e in effects
    decreases |rows|
  {
    if |rows| == 0 then []
    else (if rows[0].isSelected then ActionEffects(rows[0].onChange, resolves, windowOpen) else [])
         + EnterEffects(rows[1..], resolves, windowOpen)
  }

  lemma {:induction false} EnterEffectsOfOneSelected(rows: seq<Row>, i: nat, resolves: bool, windowOpen: bool)
    requires i < |rows| && rows[i].isSelected
    requires forall k :: 0 <= k < |rows| && k != i ==> !rows[k].isSelected
    ensures EnterEffects(rows, resolves, windowOpen) == ActionEffects(rows[i].onChange, resolves, windowOpen)
    decreases |rows|
  {
    if i > 0 {
      EnterEffectsOfOneSelected(rows[1..], i - 1, resolves, windowOpen);
    }
  }

  /** With no tabs listed and the stale index 1, Enter runs the web search
      for the term: the only row is the selected web-search row. */
  lemma EnterOnStaleIndexRunsSearch(term: string, engine: string, resolves: bool, windowOpen: bool)
    requires term != ""
    ensures EnterEffects(Render([], Int(1), term, engine), resolves, windowOpen) == TriggerSearchEffects(term, resolves)
  {
    EnterEffectsOfOneSelected(Render([], Int(1), term, engine), 0, resolves, windowOpen);
  }

  /** In a reachable state with tabs listed, Enter activates the selected
      tab (and never runs a web search). */
  lemma EnterActivatesSelectedTab(p: App.Popup, searchTerm: string, engine: string, resolves: bool, windowOpen: bool)
    requires App.Valid(p)
    requires |p.tabs| > 0
    ensures EnterEffects(Render(p.tabs, p.activeTabIndex, searchTerm, engine), resolves, windowOpen)
            == App.ActivateTabEffects(p.tabs[p.activeTabIndex.v], resolves, windowOpen)
  {
    var rows := Render(p.tabs, p.activeTabIndex, searchTerm, engine);
    EnterEffectsOfOneSelected(rows, p.activeTabIndex.v, resolves, windowOpen);
  }
}
