/** The unified result list (`SearchResultsList`): results of three kinds,
    each mapped to one `SearchResultRow` whose callback hands the result
    back to the caller.
 */
module SearchResultsList {
  import opened Js
  import Row = SearchResultRow

  /** A reference to the bookmark tree node a bookmark result came from. */
  datatype BookmarkNode = BookmarkNode(id: string)

  /** One entry of the unified list: its kind, what the row shows, and the
      tab or bookmark node it stands for (`SearchResult`). */
  datatype SearchResult = SearchResult(
    resultType: Row.ResultType,
    favIconUrl: Option<string>,
    title: string,
    url: string,
    tabId: Option<int>,
    originalData: Option<BookmarkNode>)

  /** A tab id is carried only by tab results, a bookmark node only by
      bookmark results. */
  predicate WellFormed(r: SearchResult) {
    && (r.tabId.Some? ==> r.resultType == Row.TabKind)
    && (r.originalData.Some? ==> r.resultType == Row.BookmarkKind)
  }

  /** The string a result type interpolates to. */
  function TypeName(t: Row.ResultType): string {
    match t
    case TabKind => "tab"
    case BookmarkKind => "bookmark"
    case SearchKind => "search"
  }

  /** The React key of the row at `index`: the type name, a dash, then the
      index in decimal (`${result.type}-${index}`). */
  function Key(t: Row.ResultType, index: nat): string {
    TypeName(t) + "-" + NumberToString(index)
  }

  /** Keys identify the row: equal keys mean equal type and equal index. */
  lemma KeyInjective(t1: Row.ResultType, i1: nat, t2: Row.ResultType, i2: nat)
    ensures Key(t1, i1) == Key(t2, i2) ==> t1 == t2 && i1 == i2
  {
    if Key(t1, i1) == Key(t2, i2) {
      var n1, n2 := TypeName(t1), TypeName(t2);
      var k := Key(t1, i1);
      // The first '-' of a key ends its type name.
      assert k == n2 + "-" + NumberToString(i2);
      assert k[|n1|] == '-' && k[|n2|] == '-';
      assert forall i :: 0 <= i < |n1| ==> k[i] == n1[i] != '-';
      assert forall i :: 0 <= i < |n2| ==> k[i] == n2[i] != '-';
      assert |n1| == |n2|;
      assert n1 == k[..|n1|] == n2;
      assert NumberToString(i1) == k[|n1| + 1..] == NumberToString(i2);
      NumberToStringInjective(i1, i2);
    }
  }

  /** One rendered row with its React key. */
  datatype ListRow = ListRow(key: string, props: Row.Props<SearchResult>)

  /** One row per result, in list order, selected when its position is the
      active index (`tabs.map((result, index) => <SearchResultRow ... />)`). */
  function Rows(results: seq<SearchResult>, activeTabIndex: Num): (rows: seq<ListRow>)
    ensures |rows| == |results|
    ensures forall k :: 0 <= k < |rows| ==>
      && rows[k].props.favIconUrl == results[k].favIconUrl
      && rows[k].props.title == results[k].title
      && rows[k].props.url == results[k].url
      && rows[k].props.resultType == Some(results[k].resultType)
      && rows[k].props.onChange == results[k]
      && (rows[k].props.isSelected <==> activeTabIndex == Int(k))
      && rows[k].props.tabindex == k + 1
      && rows[k].key == Key(results[k].resultType, k)
  {
    seq(|results|, k requires 0 <= k < |results| =>
      var r := results[k];
      ListRow(Key(r.resultType, k),
              Row.Props(r.favIconUrl, r.title, r.url, k + 1, r, activeTabIndex == Int(k), Some(r.resultType))))
  }

  /** No two rows share a key or a tabindex. */
  lemma RowKeysDistinct(results: seq<SearchResult>, activeTabIndex: Num)
    ensures var rows := Rows(results, activeTabIndex);
      forall i, j :: 0 <= i < j < |rows| ==> rows[i].key != rows[j].key && rows[i].props.tabindex != rows[j].props.tabindex
  {
    var rows := Rows(results, activeTabIndex);
    forall i, j | 0 <= i < j < |rows|
      ensures rows[i].key != rows[j].key
    {
      KeyInjective(results[i].resultType, i, results[j].resultType, j);
    }
  }

  function CountSelected(rows: seq<ListRow>): nat
    decreases |rows|
  {
    if |rows| == 0 then 0
    else CountSelected(rows[..|rows| - 1]) + (if rows[|rows| - 1].props.isSelected then 1 else 0)
  }

  /** Counting rows selected exactly at position `a`. */
  lemma {:induction false} CountSelectedAt(rows: seq<ListRow>, a: int)
    requires forall k :: 0 <= k < |rows| ==> (rows[k].props.isSelected <==> k == a)
    ensures CountSelected(rows) == if 0 <= a < |rows| then 1 else 0
    decreases |rows|
  {
    if |rows| > 0 {
      CountSelectedAt(rows[..|rows| - 1], a);
    }
  }

  /** Exactly one row is selected when the index is within the list, and
      none otherwise (including `NaN`). */
  lemma ExactlyOneSelected(results: seq<SearchResult>, activeTabIndex: Num)
    ensures CountSelected(Rows(results, activeTabIndex))
            == if activeTabIndex.Int? && 0 <= activeTabIndex.v < |results| then 1 else 0
  {
    var rows := Rows(results, activeTabIndex);
    var a := if activeTabIndex.Int? then activeTabIndex.v else -1;
    CountSelectedAt(rows, a);
  }

  /** The results Enter hands to the list's `onChange`, in row order. */
  function EnterTargets(rows: seq<ListRow>, enterPressed: bool): seq<SearchResult>
    decreases |rows|
  {
    if |rows| == 0 then []
    else
      (match Row.OnEnter(rows[0].props, enterPressed)
       case Some(r) => [r]
       case None => [])
      + EnterTargets(rows[1..], enterPressed)
  }

  lemma {:induction false} EnterTargetsAt(rows: seq<ListRow>, results: seq<SearchResult>, a: int)
    requires |rows| == |results|
    requires forall k :: 0 <= k < |rows| ==> (rows[k].props.isSelected <==> k == a)
    requires forall k :: 0 <= k < |rows| ==> rows[k].props.onChange == results[k]
    ensures EnterTargets(rows, true) == if 0 <= a < |rows| then [results[a]] else []
    decreases |rows|
  {
    if |rows| > 0 {
      EnterTargetsAt(rows[1..], results[1..], a - 1);
    }
  }

  /** Enter hands over exactly the result under the index, or nothing when
      the index is outside the list; without Enter nothing fires. */
  lemma EnterHandsOverSelectedResult(results: seq<SearchResult>, activeTabIndex: Num)
    ensures EnterTargets(Rows(results, activeTabIndex), false) == []
    ensures EnterTargets(Rows(results, activeTabIndex), true)
            == if activeTabIndex.Int? && 0 <= activeTabIndex.v < |results| then [results[activeTabIndex.v]] else []
  {
    var rows := Rows(results, activeTabIndex);
    var a := if activeTabIndex.Int? then activeTabIndex.v else -1;
    EnterTargetsAt(rows, results, a);
    NoTargetsWithoutEnter(rows);
  }

  lemma {:induction false} NoTargetsWithoutEnter(rows: seq<ListRow>)
    ensures EnterTargets(rows, false) == []
    decreases |rows|
  {
    if |rows| > 0 {
      NoTargetsWithoutEnter(rows[1..]);
    }
  }

  /** For a well-formed result, what the row shows follows the reference it
      carries: a result with a tab id is labelled "Switch to tab" when
      selected, one with a bookmark node shows the bookmark indicator. */
  lemma ReferenceDecidesRowLabel(results: seq<SearchResult>, activeTabIndex: Num, k: nat)
    requires k < |results|
    requires WellFormed(results[k])
    ensures var view := Row.Render(Rows(results, activeTabIndex)[k].props);
      && (results[k].tabId.Some? && activeTabIndex == Int(k) ==> view.actionText == Some("Switch to tab"))
      && (results[k].originalData.Some? ==> view.bookmarkIndicator)
  {
  }
}
