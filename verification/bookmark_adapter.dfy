/**
 * The sample app's `BookmarkAdapter`: a two-level table of contents shown as
 * one flat list, where expanding a parent inserts its children right after
 * it and collapsing removes them again. The parent's `isExpanded` flag is
 * kept on the parent entry of the list.
 */
module BookmarkAdapter {
  import opened JavaLang

  /** A `PdfDocument.Bookmark` as the adapter reads it. */
  datatype DocBookmark = DocBookmark(title: string, pageIdx: Int64, rawX: real, rawY: real, children: seq<DocBookmark>)

  /** `TOCItem.ChildItem`. */
  datatype ChildItem = ChildItem(title: string, pageIndex: Int32, rawX: real, rawY: real)

  /** `TOCItem.ParentItem`. */
  datatype ParentItem = ParentItem(title: string, children: seq<ChildItem>, pageIndex: Int32, rawX: real, rawY: real, expanded: bool)

  /** A row of the list: `isParent()` holds exactly for `Parent`. */
  datatype TocItem = Parent(parent: ParentItem) | Child(child: ChildItem)

  const PARENT_TYPE: int := 0
  const CHILD_TYPE: int := 1

  /** A bookmark below the top level, with its page narrowed by the `(int)` cast. */
  function ToChild(b: DocBookmark): (c: ChildItem)
    ensures c.title == b.title && c.rawX == b.rawX && c.rawY == b.rawY
    ensures (c.pageIndex - b.pageIdx) % TWO_32 == 0
  {
    ChildItem(b.title, ToInt32(b.pageIdx), b.rawX, b.rawY)
  }

  /** A top-level bookmark: its direct children become child items; deeper levels are dropped. */
  function ToParent(b: DocBookmark): (p: ParentItem)
    ensures p.title == b.title && p.rawX == b.rawX && p.rawY == b.rawY && !p.expanded
    ensures (p.pageIndex - b.pageIdx) % TWO_32 == 0
    ensures |p.children| == |b.children|
    ensures forall k :: 0 <= k < |b.children| ==> p.children[k] == ToChild(b.children[k])
  {
    ParentItem(b.title, seq(|b.children|, k requires 0 <= k < |b.children| => ToChild(b.children[k])), ToInt32(b.pageIdx), b.rawX, b.rawY, false)
  }

  /** The constructor: one collapsed parent row per top-level bookmark, in order. */
  function FromBookmarks(bookmarks: seq<DocBookmark>): (items: seq<TocItem>)
    ensures |items| == |bookmarks|
    ensures forall i :: 0 <= i < |items| ==> items[i] == Parent(ToParent(bookmarks[i]))
  {
    seq(|bookmarks|, i requires 0 <= i < |bookmarks| => Parent(ToParent(bookmarks[i])))
  }

  /** A fresh list shows only parents, none of them expanded. */
  lemma FreshListIsCollapsed(bookmarks: seq<DocBookmark>)
    ensures forall i :: 0 <= i < |FromBookmarks(bookmarks)| ==>
      GetItemViewType(FromBookmarks(bookmarks), i) == Ok(PARENT_TYPE) && !FromBookmarks(bookmarks)[i].parent.expanded
  {
  }

  /** `getItemViewType`: `List.get` throws outside the list. */
  function GetItemViewType(items: seq<TocItem>, position: int): (r: Outcome<int>)
    ensures r.Ok? <==> 0 <= position < |items|
    ensures r.Ok? ==> (r.value == PARENT_TYPE <==> items[position].Parent?)
    ensures r.Ok? ==> (r.value == CHILD_TYPE <==> items[position].Child?)
  {
    if 0 <= position < |items| then Ok(if items[position].Parent? then PARENT_TYPE else CHILD_TYPE)
    else Throws(IndexOutOfBounds)
  }

  /** The rows a parent's children occupy once it is expanded. */
  function ChildRows(children: seq<ChildItem>): (rows: seq<TocItem>)
    ensures |rows| == |children|
    ensures forall k :: 0 <= k < |rows| ==> rows[k] == Child(children[k])
  {
    seq(|children|, k requires 0 <= k < |children| => Child(children[k]))
  }

  /**
   * The list after a collapse or expansion, and what was thrown. The flag
   * is set before the list is touched, so a throw still leaves it changed.
   */
  datatype Surgery = Surgery(items: seq<TocItem>, thrown: Option<Exception>)

  /** The parent row at `position` with its flag set to `expanded`. */
  function SetExpanded(items: seq<TocItem>, position: int, expanded: bool): (r: seq<TocItem>)
    requires 0 <= position < |items| && items[position].Parent?
    ensures |r| == |items| && r[position] == Parent(items[position].parent.(expanded := expanded))
    ensures forall i :: 0 <= i < |items| && i != position ==> r[i] == items[i]
  {
    items[position := Parent(items[position].parent.(expanded := expanded))]
  }

  /**
   * `collapseItems`: clear the flag, then remove the `childCount` rows after
   * the parent; `subList` throws when they run past the end of the list.
   */
  function CollapseItems(items: seq<TocItem>, position: int): (r: Surgery)
    requires 0 <= position < |items| && items[position].Parent?
    ensures var childCount := |items[position].parent.children|;
      r.thrown.None? <==> position + 1 + childCount <= |items|
    ensures r.thrown.Some? ==> r == Surgery(SetExpanded(items, position, false), Some(IndexOutOfBounds))
    ensures r.thrown.None? ==> (
      var childCount := |items[position].parent.children|;
      |r.items| == |items| - childCount
      && (forall i :: 0 <= i < position ==> r.items[i] == items[i])
      && r.items[position] == Parent(items[position].parent.(expanded := false))
      && forall i :: position < i < |r.items| ==> r.items[i] == items[i + childCount])
  {
    var flagged := SetExpanded(items, position, false);
    var childCount := |items[position].parent.children|;
    if position + 1 + childCount <= |items| then
      Surgery(flagged[..position + 1] + flagged[position + 1 + childCount..], None)
    else
      Surgery(flagged, Some(IndexOutOfBounds))
  }

  /** `expandItems`: set the flag, then insert the children right after the parent. */
  function ExpandItems(items: seq<TocItem>, position: int): (r: Surgery)
    requires 0 <= position < |items| && items[position].Parent?
    ensures r.thrown.None?
    ensures (
      var children := items[position].parent.children;
      |r.items| == |items| + |children|
      && (forall i :: 0 <= i < position ==> r.items[i] == items[i])
      && r.items[position] == Parent(items[position].parent.(expanded := true))
      && (forall k :: 0 <= k < |children| ==> r.items[position + 1 + k] == Child(children[k]))
      && forall i :: position < i < |items| ==> r.items[i + |children|] == items[i])
  {
    var flagged := SetExpanded(items, position, true);
    var children := items[position].parent.children;
    Surgery(flagged[..position + 1] + ChildRows(children) + flagged[position + 1..], None)
  }

  /** `toggleExpansion`: collapse an expanded parent, expand a collapsed one. */
  function ToggleExpansion(items: seq<TocItem>, position: int): (r: Surgery)
    requires 0 <= position < |items| && items[position].Parent?
    ensures items[position].parent.expanded ==> r == CollapseItems(items, position)
    ensures !items[position].parent.expanded ==> r == ExpandItems(items, position)
    ensures forall i :: 0 <= i < position && i < |r.items| ==> r.items[i] == items[i]
    ensures (r.thrown.None? || items[position].parent.expanded) && position < |r.items| ==>
      (r.items[position].Parent? && r.items[position].parent.expanded == !items[position].parent.expanded)
  {
    if items[position].parent.expanded then CollapseItems(items, position) else ExpandItems(items, position)
  }

  /** Collapsing right after an expansion gives back the original list. */
  lemma ExpandThenCollapse(items: seq<TocItem>, position: int)
    requires 0 <= position < |items| && items[position].Parent? && !items[position].parent.expanded
    ensures CollapseItems(ExpandItems(items, position).items, position) == Surgery(items, None)
  {
    var expanded := ExpandItems(items, position).items;
    var collapsed := CollapseItems(expanded, position);
    var childCount := |items[position].parent.children|;
    assert collapsed.thrown.None?;
    assert collapsed.items[position] == items[position];
    assert |collapsed.items| == |items|;
    forall i | 0 <= i < |items|
      ensures collapsed.items[i] == items[i]
    {
      if i > position {
        assert collapsed.items[i] == expanded[i + childCount];
      }
    }
  }

  /** Toggling a collapsed parent twice gives back the original list. */
  lemma ToggleTwiceRestores(items: seq<TocItem>, position: int)
    requires 0 <= position < |items| && items[position].Parent? && !items[position].parent.expanded
    ensures var once := ToggleExpansion(items, position).items;
      ToggleExpansion(once, position) == Surgery(items, None)
  {
    ExpandThenCollapse(items, position);
  }

  /**
   * Expanding right after a collapse gives back the original list, when the
   * rows after the parent were its children.
   */
  lemma CollapseThenExpand(items: seq<TocItem>, position: int)
    requires 0 <= position < |items| && items[position].Parent? && items[position].parent.expanded
    requires (
      var children := items[position].parent.children;
      position + 1 + |children| <= |items|
      && forall k :: 0 <= k < |children| ==> items[position + 1 + k] == Child(children[k]))
    ensures ExpandItems(CollapseItems(items, position).items, position) == Surgery(items, None)
  {
    var collapsed := CollapseItems(items, position).items;
    var restored := ExpandItems(collapsed, position);
    var childCount := |items[position].parent.children|;
    assert |restored.items| == |items|;
    forall i | 0 <= i < |items|
      ensures restored.items[i] == items[i]
    {
      if position < i < position + 1 + childCount {
        assert restored.items[position + 1 + (i - position - 1)] == Child(items[position].parent.children[i - position - 1]);
      } else if i >= position + 1 + childCount {
        assert restored.items[(i - childCount) + childCount] == collapsed[i - childCount];
      }
    }
  }
}
