/** `buildRows`: sort the entries in place, take one page, and turn each
    entry of the page into its primary row followed by one child row per
    sub-item. */
module RowBuilder {
  import opened Catalog
  import opened Sorting
  import opened RowMapper

  /** `sortBy` as the table hands it over: a 1-based column index and a
      direction, `"desc"` meaning descending. */
  datatype SortBy = SortBy(index: int, direction: string)

  /** `emptyTable`: one row whose single cell spans the four columns. */
  function EmptyTable(): (t: seq<Row>)
    ensures |t| == 1 && t[0].cells == [EmptyStateCell(4)]
    ensures t[0].treeParent.None? && t[0].selected.None?
  {
    [Row(None, [EmptyStateCell(4)], None, None, None, None)]
  }

  /** How `slice` reads a start or end argument: negative counts from the end. */
  function RelativeIndex(x: int, len: nat): (r: nat)
    ensures r <= len
    ensures 0 <= x ==> r == if x < len then x else len
    ensures x < 0 ==> r == if -x <= len then len + x else 0
  {
    if x < 0 then (if len + x < 0 then 0 else len + x)
    else if x < len then x else len
  }

  /** `s.slice(start, end)`. */
  function Slice<T>(s: seq<T>, start: int, end: int): (r: seq<T>)
    ensures var from, to := RelativeIndex(start, |s|), RelativeIndex(end, |s|);
            && |r| == (if from < to then to - from else 0)
            && forall i :: 0 <= i < |r| ==> r[i] == s[from + i]
  {
    var from, to := RelativeIndex(start, |s|), RelativeIndex(end, |s|);
    if from < to then s[from..to] else []
  }

  /** For a page number from 1 on, the page is the window
      `[(page-1)*perPage, min(page*perPage, |s|))`, empty when it starts past the end. */
  lemma PageWindow<T>(s: seq<T>, page: int, perPage: int)
    requires 1 <= page && 0 <= perPage
    ensures var lo := (page - 1) * perPage;
            var hi := if page * perPage < |s| then page * perPage else |s|;
            && 0 <= lo
            && (lo < |s| ==> Slice(s, lo, page * perPage) == s[lo..hi])
            && (|s| <= lo ==> Slice(s, lo, page * perPage) == [])
  {
    var lo := (page - 1) * perPage;
    assert page * perPage == lo + perPage;
  }

  /** The sub-items of an entry, as `Object.entries` lists them (none when absent). */
  function SubEntries(e: Entry): seq<SubEntry>
  {
    e.api.subItems.GetOr([])
  }

  /** `(frontend && frontend.title) || title`: the name looked up in `openedRows`. */
  function TreeKey(e: Entry): (k: Option<string>)
    ensures e.frontend.Some? && Truthy(e.frontend.value.title) ==> k == e.frontend.value.title
    ensures !(e.frontend.Some? && Truthy(e.frontend.value.title)) ==> k == e.title
  {
    Or(if e.frontend.Some? then e.frontend.value.title else None, e.title)
  }

  /** `openedRows?.includes?.(key)`; undefined when there is no list. */
  function Includes(openedRows: Option<seq<string>>, key: Option<string>): (b: Option<bool>)
    ensures openedRows.None? <==> b.None?
    ensures b.Some? ==> (b.value <==> key.Some? && key.value in openedRows.value)
  {
    match openedRows
    case None => None
    case Some(names) => Some(key.Some? && key.value in names)
  }

  /** The primary row of an entry. */
  function PrimaryRow(e: Entry, selectedRows: map<string, Selection>, openedRows: Option<seq<string>>): (r: Row)
    ensures r.treeParent.None?
    ensures r.noDetail == Some(!Truthy(e.version) && !Truthy(e.api.url))
    ensures r.subItems == e.api.subItems
    ensures r.isTreeOpen == if e.api.subItems.Some? then Includes(openedRows, TreeKey(e)) else None
    ensures r.cells == MapRow(e.title, e.api.versions, e.api.url, selectedRows, Or(e.apiName, e.appName)).cells
    ensures r.selected == SelectedFlag(selectedRows, e.title)
  {
    var base := MapRow(e.title, e.api.versions, e.api.url, selectedRows, Or(e.apiName, e.appName));
    base.(isTreeOpen := if e.api.subItems.Some? then Includes(openedRows, TreeKey(e)) else None,
          subItems := e.api.subItems,
          noDetail := Some(!Truthy(e.version) && !Truthy(e.api.url)))
  }

  /** The child row of one sub-item, pointing at `parent`. */
  function ChildRow(sub: SubEntry, selectedRows: map<string, Selection>, parent: nat): (r: Row)
    ensures r.treeParent == Some(parent)
    ensures r.noDetail.None? && r.isTreeOpen.None? && r.subItems.None?
    ensures r.selected == SelectedFlag(selectedRows, sub.item.title)
    ensures r.cells == MapRow(sub.item.title, sub.item.versions, sub.item.url, selectedRows, Or(sub.item.apiName, Some(sub.key))).cells
  {
    MapRow(sub.item.title, sub.item.versions, sub.item.url, selectedRows, Or(sub.item.apiName, Some(sub.key)))
      .(treeParent := Some(parent))
  }

  /** An entry's group of rows: its primary row, then its child rows in sub-item order,
      each child pointing at `parent`. */
  function EntryRows(e: Entry, selectedRows: map<string, Selection>, openedRows: Option<seq<string>>, parent: nat): (g: seq<Row>)
    ensures |g| == 1 + |SubEntries(e)|
    ensures g[0] == PrimaryRow(e, selectedRows, openedRows)
    ensures forall n :: 1 <= n < |g| ==> g[n] == ChildRow(SubEntries(e)[n - 1], selectedRows, parent)
  {
    [PrimaryRow(e, selectedRows, openedRows)] + ChildRows(SubEntries(e), selectedRows, parent)
  }

  /** One child row per sub-item, in order. */
  function ChildRows(subs: seq<SubEntry>, selectedRows: map<string, Selection>, parent: nat): (r: seq<Row>)
    ensures |r| == |subs|
    ensures forall k :: 0 <= k < |subs| ==> r[k] == ChildRow(subs[k], selectedRows, parent)
  {
    if subs == [] then [] else [ChildRow(subs[0], selectedRows, parent)] + ChildRows(subs[1..], selectedRows, parent)
  }

  /** `.flat()` on a list of row groups: the groups laid end to end. */
  function Flatten<T(!new)>(groups: seq<seq<T>>): (r: seq<T>)
    ensures forall x :: x in r <==> exists i :: 0 <= i < |groups| && x in groups[i]
  {
    if groups == [] then [] else groups[0] + Flatten(groups[1..])
  }

  /** Element `k` of group `i` sits right after the elements of the groups before it. */
  lemma {:induction false} FlattenAt<T(!new)>(groups: seq<seq<T>>, i: nat, k: nat)
    requires i < |groups| && k < |groups[i]|
    ensures |Flatten(groups[..i])| + k < |Flatten(groups)|
    ensures Flatten(groups)[|Flatten(groups[..i])| + k] == groups[i][k]
    decreases i
  {
    if i == 0 {
      assert groups[..0] == [];
    } else {
      FlattenAt(groups[1..], i - 1, k);
      assert groups[..i][1..] == groups[1..][..i - 1];
      assert groups[..i][0] == groups[0];
    }
  }

  /** Every element of the flattened list is element `k` of some group `i`. */
  lemma {:induction false} FlattenCovers<T(!new)>(groups: seq<seq<T>>, n: nat)
    requires n < |Flatten(groups)|
    ensures exists i, k :: 0 <= i < |groups| && 0 <= k < |groups[i]| && Flatten(groups)[n] == groups[i][k]
    decreases |groups|
  {
    if n < |groups[0]| {
      assert Flatten(groups)[n] == groups[0][n];
    } else {
      FlattenCovers(groups[1..], n - |groups[0]|);
      var i, k :| 0 <= i < |groups[1..]| && 0 <= k < |groups[1..][i]| && Flatten(groups[1..])[n - |groups[0]|] == groups[1..][i][k];
      assert Flatten(groups)[n] == groups[i + 1][k];
    }
  }

  /** The number of sub-items over a list of entries. */
  function SubItemTotal(page: seq<Entry>): nat
  {
    if page == [] then 0 else |SubEntries(page[0])| + SubItemTotal(page[1..])
  }

  /** Groups of one primary row plus the entry's sub-items flatten to that many rows. */
  lemma {:induction false} FlattenGroupsLength(groups: seq<seq<Row>>, page: seq<Entry>)
    requires |groups| == |page|
    requires forall p :: 0 <= p < |page| ==> |groups[p]| == 1 + |SubEntries(page[p])|
    ensures |Flatten(groups)| == |page| + SubItemTotal(page)
    decreases |page|
  {
    if page != [] {
      FlattenGroupsLength(groups[1..], page[1..]);
    }
  }

  /** Where the group of `page[i]` starts in the flattened rows: after the
      primary rows and sub-items of the entries before it. */
  function GroupStart(page: seq<Entry>, i: nat): nat
    requires i <= |page|
  {
    i + SubItemTotal(page[..i])
  }

  /** `0, 1, …, n - 1`: the `index` argument `map` passes along. */
  function Indices(n: nat): (s: seq<nat>)
    ensures |s| == n
    ensures forall p :: 0 <= p < n ==> s[p] == p
  {
    seq(n, p requires 0 <= p < n => p as nat)
  }

  /** The row groups of a page: entry `p` gives its primary row followed by
      its child rows, each child pointing at `parents[p]`. */
  function RowGroups(page: seq<Entry>, selectedRows: map<string, Selection>, openedRows: Option<seq<string>>,
                     parents: seq<nat>): (groups: seq<seq<Row>>)
    requires |parents| == |page|
    ensures |groups| == |page|
    ensures forall p :: 0 <= p < |page| ==> groups[p] == EntryRows(page[p], selectedRows, openedRows, parents[p])
  {
    seq(|page|, p requires 0 <= p < |page| => EntryRows(page[p], selectedRows, openedRows, parents[p]))
  }

  /** The row groups laid end to end. */
  function GroupedRows(page: seq<Entry>, selectedRows: map<string, Selection>, openedRows: Option<seq<string>>,
                       parents: seq<nat>): (rows: seq<Row>)
    requires |parents| == |page|
    ensures |rows| == |page| + SubItemTotal(page)
  {
    var groups := RowGroups(page, selectedRows, openedRows, parents);
    FlattenGroupsLength(groups, page);
    Flatten(groups)
  }

  /** `.map((entry, index) => [primary, ...children]).flat()` over one page:
      child rows point at `index`, the owner's position in the page slice. */
  function PageRows(page: seq<Entry>, selectedRows: map<string, Selection>, openedRows: Option<seq<string>>): (rows: seq<Row>)
    ensures |rows| == |page| + SubItemTotal(page)
  {
    GroupedRows(page, selectedRows, openedRows, Indices(|page|))
  }

  /** Row `k` of the group of `page[i]` sits at `GroupStart(page, i) + k`,
      for any groups sized one plus each entry's sub-items. */
  lemma GroupAt(groups: seq<seq<Row>>, page: seq<Entry>, i: nat, k: nat)
    requires |groups| == |page|
    requires forall p :: 0 <= p < |page| ==> |groups[p]| == 1 + |SubEntries(page[p])|
    requires i < |page| && k <= |SubEntries(page[i])|
    ensures GroupStart(page, i) + k < |Flatten(groups)|
    ensures Flatten(groups)[GroupStart(page, i) + k] == groups[i][k]
  {
    FlattenGroupsLength(groups[..i], page[..i]);
    FlattenAt(groups, i, k);
  }

  /** Where child `k` of `page[i]` sits in the flattened rows: right after its
      owner's primary row and the owner's earlier children. */
  function ChildPos(page: seq<Entry>, i: nat, k: nat): nat
    requires i < |page|
  {
    GroupStart(page, i) + 1 + k
  }

  lemma GroupedPrimaryAt(page: seq<Entry>, selectedRows: map<string, Selection>, openedRows: Option<seq<string>>,
                         parents: seq<nat>, i: nat)
    requires |parents| == |page| && i < |page|
    ensures var rows := GroupedRows(page, selectedRows, openedRows, parents);
            && GroupStart(page, i) < |rows|
            && rows[GroupStart(page, i)] == PrimaryRow(page[i], selectedRows, openedRows)
  {
    var groups := RowGroups(page, selectedRows, openedRows, parents);
    GroupAt(groups, page, i, 0);
  }

  lemma GroupedAt(page: seq<Entry>, selectedRows: map<string, Selection>, openedRows: Option<seq<string>>,
                  parents: seq<nat>, i: nat, k: nat)
    requires |parents| == |page| && i < |page| && k <= |SubEntries(page[i])|
    ensures var rows := GroupedRows(page, selectedRows, openedRows, parents);
            && GroupStart(page, i) + k < |rows|
            && rows[GroupStart(page, i) + k] == EntryRows(page[i], selectedRows, openedRows, parents[i])[k]
  {
    var groups := RowGroups(page, selectedRows, openedRows, parents);
    GroupAt(groups, page, i, k);
  }

  lemma GroupedChildAt(page: seq<Entry>, selectedRows: map<string, Selection>, openedRows: Option<seq<string>>,
                       parents: seq<nat>, i: nat, k: nat)
    requires |parents| == |page| && i < |page| && k < |SubEntries(page[i])|
    ensures var rows := GroupedRows(page, selectedRows, openedRows, parents);
            && ChildPos(page, i, k) < |rows|
            && rows[ChildPos(page, i, k)] == ChildRow(SubEntries(page[i])[k], selectedRows, parents[i])
  {
    GroupedAt(page, selectedRows, openedRows, parents, i, 1 + k);
    assert EntryRows(page[i], selectedRows, openedRows, parents[i])[1 + k] == ChildRow(SubEntries(page[i])[k], selectedRows, parents[i]);
  }

  /** The page's rows are its entries' groups laid end to end, in page order:
      each entry's primary row starts its group. */
  lemma PrimaryRowsInPageOrder(page: seq<Entry>, selectedRows: map<string, Selection>, openedRows: Option<seq<string>>)
    ensures var rows := PageRows(page, selectedRows, openedRows);
            forall i :: 0 <= i < |page| ==>
              GroupStart(page, i) < |rows| && rows[GroupStart(page, i)] == PrimaryRow(page[i], selectedRows, openedRows)
  {
    forall i | 0 <= i < |page|
      ensures var rows := PageRows(page, selectedRows, openedRows);
              GroupStart(page, i) < |rows| && rows[GroupStart(page, i)] == PrimaryRow(page[i], selectedRows, openedRows)
    {
      GroupedPrimaryAt(page, selectedRows, openedRows, Indices(|page|), i);
    }
  }

  /** After each primary row come its child rows, one per sub-item in sub-item
      order, each with `treeParent` set to the owner's index in the page slice. */
  lemma ChildRowsFollowOwner(page: seq<Entry>, selectedRows: map<string, Selection>, openedRows: Option<seq<string>>)
    ensures var rows := PageRows(page, selectedRows, openedRows);
            forall i: nat, k: nat :: i < |page| && k < |SubEntries(page[i])| ==>
              && ChildPos(page, i, k) < |rows|
              && rows[ChildPos(page, i, k)] == ChildRow(SubEntries(page[i])[k], selectedRows, i)
              && rows[ChildPos(page, i, k)].treeParent == Some(i)
  {
    forall i: nat, k: nat | i < |page| && k < |SubEntries(page[i])|
      ensures var rows := PageRows(page, selectedRows, openedRows);
              && ChildPos(page, i, k) < |rows|
              && rows[ChildPos(page, i, k)] == ChildRow(SubEntries(page[i])[k], selectedRows, i)
              && rows[ChildPos(page, i, k)].treeParent == Some(i)
    {
      GroupedChildAt(page, selectedRows, openedRows, Indices(|page|), i, k);
    }
  }

  /** Primary rows carry `noDetail` and no `treeParent`; child rows carry a
      `treeParent` naming a position of the page slice, and no `noDetail`. */
  lemma TreeParentsInPage(page: seq<Entry>, selectedRows: map<string, Selection>, openedRows: Option<seq<string>>)
    ensures var rows := PageRows(page, selectedRows, openedRows);
            forall n :: 0 <= n < |rows| ==>
              && (rows[n].treeParent.None? <==> rows[n].noDetail.Some?)
              && (rows[n].treeParent.Some? ==> rows[n].treeParent.value < |page|)
  {
    var groups := RowGroups(page, selectedRows, openedRows, Indices(|page|));
    var rows := Flatten(groups);
    assert PageRows(page, selectedRows, openedRows) == rows;
    forall n | 0 <= n < |rows|
      ensures rows[n].treeParent.None? <==> rows[n].noDetail.Some?
      ensures rows[n].treeParent.Some? ==> rows[n].treeParent.value < |page|
    {
      FlattenCovers(groups, n);
      var i, k :| 0 <= i < |groups| && 0 <= k < |groups[i]| && rows[n] == groups[i][k];
      if k > 0 {
        assert groups[i][1 + (k - 1)] == ChildRow(SubEntries(page[i])[k - 1], selectedRows, i);
      }
    }
  }

  /** The pure part of `buildRows`, over the already sorted entries: the empty
      state for no entries, otherwise the rows of the requested page. */
  function RenderRows(sorted: seq<Entry>, page: int, perPage: int,
                      selectedRows: map<string, Selection>, openedRows: Option<seq<string>>): (rows: seq<Row>)
    ensures |sorted| == 0 ==> rows == EmptyTable()
    ensures |sorted| > 0 ==>
      var slice := Slice(sorted, (page - 1) * perPage, page * perPage);
      |rows| == |slice| + SubItemTotal(slice)
  {
    if |sorted| > 0 then PageRows(Slice(sorted, (page - 1) * perPage, page * perPage), selectedRows, openedRows)
    else EmptyTable()
  }

  /** A page past the end of a non-empty list yields no rows at all, not the
      empty-state row. */
  lemma PastTheEndIsEmpty(sorted: seq<Entry>, page: int, perPage: int,
                          selectedRows: map<string, Selection>, openedRows: Option<seq<string>>)
    requires |sorted| > 0 && 1 <= page && 0 <= perPage && |sorted| <= (page - 1) * perPage
    ensures RenderRows(sorted, page, perPage, selectedRows, openedRows) == []
    ensures RenderRows(sorted, page, perPage, selectedRows, openedRows) != EmptyTable()
  {
    PageWindow(sorted, page, perPage);
  }

  /** `buildRows(sortBy, {page, perPage}, rows, selectedRows, openedRows)`.
      A non-empty `rows` is sorted in place by the chosen column, as the
      source does to its caller's array; the result is the page's rows. */
  method BuildRows(sortBy: SortBy, page: int, perPage: int, rows: array<Entry>,
                   selectedRows: map<string, Selection>, openedRows: Option<seq<string>>)
    returns (out: seq<Row>)
    modifies rows
    ensures rows.Length == 0 ==> out == EmptyTable()
    ensures multiset(rows[..]) == multiset(old(rows[..]))
    ensures AdjacentOrdered(rows[..], IndexToKey(sortBy.index), sortBy.direction == "desc")
    ensures AllHaveSortValue(rows[..], IndexToKey(sortBy.index)) ==>
      Sorted(rows[..], IndexToKey(sortBy.index), sortBy.direction == "desc")
    ensures out == RenderRows(rows[..], page, perPage, selectedRows, openedRows)
  {
    if rows.Length > 0 {
      SortByColumn(rows, IndexToKey(sortBy.index), sortBy.direction == "desc");
      out := PageRows(Slice(rows[..], (page - 1) * perPage, page * perPage), selectedRows, openedRows);
    } else {
      out := EmptyTable();
    }
  }

  /** A page whose first entry has a sub-item: the second entry's child row
      names position 1, which holds the first entry's child row, while the
      second entry's own primary row sits at position 2. */
  lemma TreeParentMissesOwner(a: Entry, b: Entry, sub: SubEntry)
    requires a.api.subItems == Some([sub]) && b.api.subItems == Some([sub])
    ensures var rows := PageRows([a, b], map[], None);
            && |rows| == 4
            && rows[2] == PrimaryRow(b, map[], None)
            && rows[3].treeParent == Some(1)
            && rows[1].treeParent.Some?
  {
    var page := [a, b];
    var groups := RowGroups(page, map[], None, Indices(2));
    assert PageRows(page, map[], None) == Flatten(groups);
    assert groups[1..][1..] == [];
    assert Flatten(groups[1..]) == groups[1] + Flatten(groups[1..][1..]);
    assert Flatten(groups) == groups[0] + groups[1];
    assert groups[0] == EntryRows(a, map[], None, 0) && groups[1] == EntryRows(b, map[], None, 1);
  }

  /** The flattened position of every entry's primary row. */
  function GroupStarts(page: seq<Entry>): (s: seq<nat>)
    ensures |s| == |page|
    ensures forall p :: 0 <= p < |page| ==> s[p] == GroupStart(page, p)
  {
    seq(|page|, p requires 0 <= p < |page| => GroupStart(page, p))
  }

  /** The page's rows with every child pointing at the flattened position of
      its owner's primary row. */
  function LinkedPageRows(page: seq<Entry>, selectedRows: map<string, Selection>, openedRows: Option<seq<string>>): (rows: seq<Row>)
    ensures |rows| == |page| + SubItemTotal(page)
  {
    GroupedRows(page, selectedRows, openedRows, GroupStarts(page))
  }

  /** In the linked rows every child's `treeParent` is an earlier position that
      holds its owner's primary row. */
  lemma LinkedTreeParentIsOwner(page: seq<Entry>, selectedRows: map<string, Selection>, openedRows: Option<seq<string>>)
    ensures var rows := LinkedPageRows(page, selectedRows, openedRows);
            forall i: nat, k: nat :: i < |page| && k < |SubEntries(page[i])| ==>
              && ChildPos(page, i, k) < |rows|
              && rows[ChildPos(page, i, k)] == ChildRow(SubEntries(page[i])[k], selectedRows, GroupStart(page, i))
              && rows[ChildPos(page, i, k)].treeParent == Some(GroupStart(page, i))
              && GroupStart(page, i) < ChildPos(page, i, k)
              && rows[GroupStart(page, i)] == PrimaryRow(page[i], selectedRows, openedRows)
  {
    forall i: nat, k: nat | i < |page| && k < |SubEntries(page[i])|
      ensures var rows := LinkedPageRows(page, selectedRows, openedRows);
              && ChildPos(page, i, k) < |rows|
              && rows[ChildPos(page, i, k)] == ChildRow(SubEntries(page[i])[k], selectedRows, GroupStart(page, i))
              && rows[ChildPos(page, i, k)].treeParent == Some(GroupStart(page, i))
              && GroupStart(page, i) < ChildPos(page, i, k)
              && rows[GroupStart(page, i)] == PrimaryRow(page[i], selectedRows, openedRows)
    {
      GroupedPrimaryAt(page, selectedRows, openedRows, GroupStarts(page), i);
      GroupedChildAt(page, selectedRows, openedRows, GroupStarts(page), i, k);
    }
  }
}
