/** One row of the unified result list (`SearchResultRow`): which icon it
    shows, the action label, the bookmark indicator, the CSS classes, and
    whether Enter runs its callback. The callback is a value of type `A`
    handed back when the row fires.
 */
module SearchResultRow {
  import opened Js

  /** The three kinds of result. */
  datatype ResultType = TabKind | BookmarkKind | SearchKind

  /** The component's props; `resultType` may be omitted. */
  datatype Props<A> = Props(
    favIconUrl: Option<string>,
    title: string,
    url: string,
    tabindex: int,
    onChange: A,
    isSelected: bool,
    resultType: Option<ResultType>)

  /** `resultType = "tab"`: the kind the row renders as. */
  function EffectiveType<A>(props: Props<A>): (t: ResultType)
    ensures props.resultType.None? ==> t == TabKind
    ensures props.resultType.Some? ==> t == props.resultType.value
  {
    props.resultType.GetOr(TabKind)
  }

  /** The label a selected row shows for its kind (`getActionText`). */
  function ActionText(t: ResultType): string {
    match t
    case TabKind => "Switch to tab"
    case BookmarkKind => "Open bookmark"
    case SearchKind => "Search web"
  }

  /** Each kind gets its own action label. */
  lemma ActionTextDistinguishesKinds(t1: ResultType, t2: ResultType)
    ensures ActionText(t1) == ActionText(t2) <==> t1 == t2
    ensures ActionText(TabKind) == "Switch to tab"
    ensures ActionText(BookmarkKind) == "Open bookmark"
    ensures ActionText(SearchKind) == "Search web"
  {
  }

  /** What the favicon slot shows. */
  datatype Icon = FaviconImage(src: string) | BookmarkGlyph | DefaultFavicon

  /** `getIcon`: a truthy favicon URL wins whatever the kind; otherwise a
      bookmark gets the bookmark glyph and every other kind the default
      icon. An empty URL counts as absent. */
  function GetIcon(favIconUrl: Option<string>, t: ResultType): (icon: Icon)
    ensures icon.FaviconImage? <==> TruthyString(favIconUrl)
    ensures icon.FaviconImage? ==> icon.src == favIconUrl.value
    ensures icon == BookmarkGlyph <==> !TruthyString(favIconUrl) && t == BookmarkKind
    ensures icon == DefaultFavicon <==> !TruthyString(favIconUrl) && t != BookmarkKind
  {
    if TruthyString(favIconUrl) then FaviconImage(favIconUrl.value)
    else if t == BookmarkKind then BookmarkGlyph
    else DefaultFavicon
  }

  /** The CSS-module class names, whose generated spelling belongs to the
      build; only `result-item` and `is-selected` are literal. */
  const TabItemClass: string := "tabItem"
  const SelectedClass: string := "selected"

  /** The classes on the row's outer element. */
  function Classes(isSelected: bool): (classes: seq<string>)
    ensures "result-item" in classes && TabItemClass in classes
    ensures "is-selected" in classes <==> isSelected
    ensures SelectedClass in classes <==> isSelected
    ensures |classes| == if isSelected then 4 else 2
  {
    ["result-item", TabItemClass] + (if isSelected then [SelectedClass, "is-selected"] else [])
  }

  /** What one row renders. */
  datatype View = View(
    classes: seq<string>,
    tabindex: int,
    icon: Icon,
    bookmarkIndicator: bool,
    heading: string,
    description: string,
    actionText: Option<string>)

  function Render<A>(props: Props<A>): (view: View)
    ensures "is-selected" in view.classes <==> props.isSelected
    ensures view.actionText.Some? <==> props.isSelected
    ensures view.actionText.Some? ==> view.actionText.value == ActionText(EffectiveType(props))
    ensures view.bookmarkIndicator <==> props.resultType == Some(BookmarkKind)
    ensures view.icon == GetIcon(props.favIconUrl, EffectiveType(props))
    ensures view.heading == props.title && view.description == props.url && view.tabindex == props.tabindex
  {
    var t := EffectiveType(props);
    View(Classes(props.isSelected), props.tabindex, GetIcon(props.favIconUrl, t), t == BookmarkKind,
         props.title, props.url, if props.isSelected then Some(ActionText(t)) else None)
  }

  /** A row whose kind was left out behaves as a tab row: "Switch to tab"
      when selected, no bookmark indicator, and never the bookmark glyph. */
  lemma OmittedTypeRendersAsTab<A>(props: Props<A>)
    requires props.resultType.None?
    ensures Render(props) == Render(props.(resultType := Some(TabKind)))
    ensures !Render(props).bookmarkIndicator
    ensures Render(props).icon != BookmarkGlyph
    ensures props.isSelected ==> Render(props).actionText == Some("Switch to tab")
  {
  }

  /** The effect hook on Enter: the callback runs only when Enter goes down
      on the selected row. */
  function OnEnter<A>(props: Props<A>, enterPressed: bool): (fired: Option<A>)
    ensures fired.Some? <==> enterPressed && props.isSelected
    ensures fired.Some? ==> fired.value == props.onChange
  {
    if enterPressed && props.isSelected then Some(props.onChange) else None
  }
}
