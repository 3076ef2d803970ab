/** The slice of the WebExtension `browser.*` API the popup touches, as
    plain values: the tab and search-engine records it reads, and the calls
    it makes, which the model returns as effect values instead of
    performing them.
 */
module Browser {
  import opened Js

  /** `browser.tabs.Tab`, reduced to the fields the popup reads. */
  datatype Tab = Tab(id: Option<int>, title: Option<string>, url: Option<string>, favIconUrl: Option<string>)

  /** An entry of `browser.search.get()`. */
  datatype SearchEngine = SearchEngine(name: string, isDefault: bool)

  /** Where `browser.search.query` shows its results. */
  datatype Disposition = CurrentTab | NewTab | NewWindow

  /** A platform call the popup issues, in the order it issues them. */
  datatype Effect =
    | ActivateTab(tabId: int)                               // make the tab active in its window
    | SearchQuery(text: string, disposition: Disposition)  // run a web search with the default engine
    | CloseWindow                                           // close the popup window
}
