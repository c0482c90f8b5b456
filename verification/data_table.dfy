/**
 * The data table component: the sort-state transition of a header click,
 * the header's accessible sort state, the body rows of one render, and the
 * instance whose event handlers update the sort and the selection.
 */
module DataTable {
  import opened Options
  import opened TableSort
  import opened TableSelection

  /** A column. Only whether a `render` formatter is supplied is recorded; the formatter is the caller's. */
  datatype Column = Column(key: string, title: string, dataIndex: string, sortable: bool, hasRender: bool)

  /** The props of one render; `hasRowSelectHandler` says whether `onRowSelect` is supplied. */
  datatype Props = Props(
    data: seq<Row>,
    columns: seq<Column>,
    loading: bool,
    selectable: bool,
    hasRowSelectHandler: bool,
    emptyText: Option<string>)

  const DefaultEmptyText: string := "No data"

  /** Placeholder rows shown while loading. */
  const SkeletonRows: nat := 4

  /** `emptyText` with its default; only an absent value takes the default. */
  function EmptyText(p: Props): string
  {
    match p.emptyText
    case Some(t) => t
    case None => DefaultEmptyText
  }

  // ---------------------------------------------------------------------
  // Sorting state

  /** The updater `onSort` gives the sort state when the header of `c` is clicked. */
  function NextSort(prev: SortState, c: Column): (next: SortState)
    // a click on a column that is not sortable changes nothing
    ensures !c.sortable ==> next == prev
    // a click on a sortable column makes it the sort column
    ensures c.sortable ==> next.SortedBy? && next.key == c.dataIndex
    // ascending when it was not the sort column, the other direction when it was
    ensures c.sortable && (prev.Unsorted? || prev.key != c.dataIndex) ==> next.direction == Asc
    ensures c.sortable && prev.SortedBy? && prev.key == c.dataIndex ==> next.direction != prev.direction
    // once sorted, never unsorted again
    ensures prev.SortedBy? ==> next.SortedBy?
  {
    if !c.sortable then prev
    else if prev.Unsorted? || prev.key != c.dataIndex then SortedBy(c.dataIndex, Asc)
    else SortedBy(c.dataIndex, if prev.direction == Asc then Desc else Asc)
  }

  /** The sort state after a series of header clicks. */
  function ApplyClicks(s: SortState, clicks: seq<Column>): SortState
    decreases |clicks|
  {
    if clicks == [] then s else ApplyClicks(NextSort(s, clicks[0]), clicks[1..])
  }

  /** No series of clicks returns a sorted table to "no sort"; a click on a sortable column sorts it. */
  lemma {:induction false} ClicksNeverUnsort(s: SortState, clicks: seq<Column>)
    requires s.SortedBy? || exists k :: 0 <= k < |clicks| && clicks[k].sortable
    ensures ApplyClicks(s, clicks).SortedBy?
    decreases |clicks|
  {
    if clicks != [] {
      var next := NextSort(s, clicks[0]);
      if !next.SortedBy? {
        var k :| 0 <= k < |clicks| && clicks[k].sortable;
        assert clicks[1..][k - 1] == clicks[k];
      }
      ClicksNeverUnsort(next, clicks[1..]);
    }
  }

  /** Two clicks on the active sortable column restore the sort; from no sort, clicks go ascending, descending, ascending. */
  lemma SortCycle(s: SortState, c: Column)
    requires c.sortable
    ensures s.SortedBy? && s.key == c.dataIndex ==> NextSort(NextSort(s, c), c) == s
    ensures NextSort(Unsorted, c) == SortedBy(c.dataIndex, Asc)
    ensures NextSort(NextSort(Unsorted, c), c) == SortedBy(c.dataIndex, Desc)
    ensures NextSort(NextSort(NextSort(Unsorted, c), c), c) == SortedBy(c.dataIndex, Asc)
  {
  }

  /** The `aria-sort` attribute of the header of `c`. */
  function AriaSort(sort: SortState, c: Column): (attr: string)
    ensures attr == "none" <==> !(sort.SortedBy? && sort.key == c.dataIndex)
    ensures attr == "ascending" <==> sort.SortedBy? && sort.key == c.dataIndex && sort.direction == Asc
    ensures attr == "descending" <==> sort.SortedBy? && sort.key == c.dataIndex && sort.direction == Desc
  {
    if sort.SortedBy? && sort.key == c.dataIndex then
      match sort.direction
      case Asc => assert "ascending"[0] == 'a'; "ascending"
      case Desc => assert "descending"[0] == 'd'; "descending"
    else assert "none"[0] == 'n'; "none"
  }

  /** The direction glyph in the header of `c` (up for ascending, down for descending), if any. */
  function SortGlyph(sort: SortState, c: Column): (glyph: Option<Direction>)
    ensures glyph.Some? <==> c.sortable && AriaSort(sort, c) != "none"
    ensures glyph.Some? ==> AriaSort(sort, c) == (if glyph.value == Asc then "ascending" else "descending")
  {
    if c.sortable && sort.SortedBy? && sort.key == c.dataIndex then Some(sort.direction) else None
  }

  /**
   * After a click on sortable column `c`, its header announces the new
   * direction and shows the matching glyph, and every header over another
   * field announces no sort.
   */
  lemma HeaderAfterClick(prev: SortState, c: Column, d: Column)
    requires c.sortable
    ensures var next := NextSort(prev, c);
      AriaSort(next, c) == (if next.direction == Asc then "ascending" else "descending") &&
      SortGlyph(next, c) == Some(next.direction) &&
      (d.dataIndex != c.dataIndex ==> AriaSort(next, d) == "none" && SortGlyph(next, d) == None)
  {
  }

  // ---------------------------------------------------------------------
  // Selection state derived for the header checkbox

  /** `allChecked`: the header checkbox state. Only the size of the selection is compared. */
  function AllChecked(p: Props, selected: set<int>): bool
  {
    p.selectable && |p.data| > 0 && |selected| == |p.data|
  }

  /** After "select all", the header shows checked exactly when records have pairwise distinct identities. */
  lemma AllCheckedAfterSelectAll(p: Props)
    requires p.selectable && |p.data| > 0
    ensures AllChecked(p, IdentitySet(p.data)) <==> DistinctIdentities(p.data, |p.data|)
  {
    IdentityCount(p.data, |p.data|);
  }

  /** The header can show "all checked" while a record's identity is not selected. */
  lemma AllCheckedBySizeOnly()
    ensures var p := Props([Row(Some(7), map[])], [], false, true, false, None);
      AllChecked(p, {1}) && Identity(p.data[0], 0) !in {1}
  {
  }

  // ---------------------------------------------------------------------
  // Body rows

  /** What a cell shows: the column's formatter applied to the value and record, the value as text, or nothing. */
  datatype Cell = Rendered(field: Option<int>, record: Row) | Text(value: int) | Blank

  function CellOf(c: Column, r: Row): Cell
  {
    if c.hasRender then Rendered(FieldValue(r, c.dataIndex), r)
    else match FieldValue(r, c.dataIndex)
      case Some(v) => Text(v)
      case None => Blank
  }

  /**
   * A body row: a loading placeholder as wide as the table, the empty-state
   * row, or a record row. A record row carries its record, the identity its
   * checkbox toggles, its 1-based number in "Select row N", its checkbox
   * (absent when not selectable, else whether checked) and its cells.
   */
  datatype BodyRow =
    | SkeletonRow(width: nat)
    | EmptyRow(colSpan: nat, text: string)
    | RecordRow(record: Row, identity: int, number: nat, checkbox: Option<bool>, cells: seq<Cell>)

  /** Columns of the table, the selection column included. */
  function Width(p: Props): nat
  {
    |p.columns| + (if p.selectable then 1 else 0)
  }

  function RecordRowAt(p: Props, view: seq<Row>, i: nat, selected: set<int>): BodyRow
    requires i < |view|
  {
    var id := Identity(view[i], i);
    RecordRow(view[i], id, i + 1,
      if p.selectable then Some(id in selected) else None,
      seq(|p.columns|, c requires 0 <= c < |p.columns| => CellOf(p.columns[c], view[i])))
  }

  /** The rows of the table body in one render. */
  function BodyRows(p: Props, sort: SortState, selected: set<int>): (rows: seq<BodyRow>)
    // loading: exactly four placeholders, whatever the data
    ensures p.loading ==>
      |rows| == SkeletonRows && forall k :: 0 <= k < |rows| ==> rows[k] == SkeletonRow(Width(p))
    // no records: one row spanning every column with the empty text
    ensures !p.loading && |p.data| == 0 ==> rows == [EmptyRow(Width(p), EmptyText(p))]
    // otherwise one row per record, in sorted order, keyed by the position in the sorted view
    ensures !p.loading && |p.data| > 0 ==>
      |rows| == |p.data| &&
      forall k :: 0 <= k < |rows| ==>
        var view := SortedView(p.data, sort);
        rows[k].RecordRow? && rows[k].record == view[k] &&
        rows[k].identity == Identity(view[k], k) && rows[k].number == k + 1 &&
        (rows[k].checkbox.Some? <==> p.selectable) &&
        (p.selectable ==> rows[k].checkbox.value == (rows[k].identity in selected)) &&
        |rows[k].cells| == |p.columns| &&
        forall c :: 0 <= c < |p.columns| ==> rows[k].cells[c] == CellOf(p.columns[c], view[k])
  {
    if p.loading then seq(SkeletonRows, _ => SkeletonRow(Width(p)))
    else
      var view := SortedView(p.data, sort);
      if |view| == 0 then [EmptyRow(Width(p), EmptyText(p))]
      else seq(|view|, k requires 0 <= k < |view| => RecordRowAt(p, view, k, selected))
  }

  /** The records shown are the records of `data`, each as often as there. */
  lemma BodyShowsEveryRecord(p: Props, sort: SortState, selected: set<int>)
    requires !p.loading && |p.data| > 0
    ensures var rows := BodyRows(p, sort, selected);
      multiset(seq(|rows|, k requires 0 <= k < |rows| => rows[k].record)) == multiset(p.data)
  {
    var rows := BodyRows(p, sort, selected);
    var shown := seq(|rows|, k requires 0 <= k < |rows| => rows[k].record);
    assert shown == SortedView(p.data, sort);
    SortedViewIsPermutation(p.data, sort);
  }

  /** Two records: one with id 5 and value 2, one without id and value 1. */
  function MixedIdentityData(): seq<Row>
  {
    [Row(Some(5), map["v" := 2]), Row(None, map["v" := 1])]
  }

  lemma MixedIdentityView()
    ensures SortedView(MixedIdentityData(), SortedBy("v", Asc)) == [MixedIdentityData()[1], MixedIdentityData()[0]]
  {
    var data := MixedIdentityData();
    var q: seq<nat> := [1, 0];
    assert FieldValue(data[0], "v") == Some(2) && FieldValue(data[1], "v") == Some(1);
    assert Before(data, "v", Asc, 1, 0);
    assert 0 in q && 1 in q;
    SortOrderUnique(data, "v", Asc, q);
  }

  lemma MixedIdentityReport()
    ensures SelectedRows(MixedIdentityData(), {0}) == []
  {
    var data := MixedIdentityData();
    assert Identity(data[0], 0) == 5 && Identity(data[1], 1) == 1;
  }

  /**
   * A record without `id` is toggled by its checkbox under its position in
   * the sorted view, while "select all" and `onRowSelect` use its position
   * in `data`. Sorted ascending, the second record is shown first; once
   * "Select row 1" has selected identity 0 its checkbox shows checked, yet
   * `onRowSelect` maps identity 0 to no record.
   */
  lemma SortedPositionIdentity()
    ensures var data := MixedIdentityData();
      var view := SortedView(data, SortedBy("v", Asc));
      var rows := BodyRows(Props(data, [], false, true, true, None), SortedBy("v", Asc), {0});
      view[0] == data[1] &&
      Identity(view[0], 0) == 0 && Identity(data[1], 1) == 1 &&
      rows[0].checkbox == Some(true) &&
      SelectedRows(data, {0}) == []
  {
    MixedIdentityView();
    MixedIdentityReport();
  }

  /** Two records without `id`: values 2 and 1. */
  function UnnamedData(): seq<Row>
  {
    [Row(None, map["v" := 2]), Row(None, map["v" := 1])]
  }

  lemma UnnamedView()
    ensures SortedView(UnnamedData(), SortedBy("v", Asc)) == [UnnamedData()[1], UnnamedData()[0]]
  {
    var data := UnnamedData();
    var q: seq<nat> := [1, 0];
    assert FieldValue(data[0], "v") == Some(2) && FieldValue(data[1], "v") == Some(1);
    assert Before(data, "v", Asc, 1, 0);
    assert 0 in q && 1 in q;
    SortOrderUnique(data, "v", Asc, q);
  }

  /**
   * With records without `id` sorted ascending, "Select row 1" shows the
   * second record but selects identity 0, and `onRowSelect` then reports
   * the first record: not the one that was clicked.
   */
  lemma OtherRecordReported()
    ensures var data := UnnamedData();
      var view := SortedView(data, SortedBy("v", Asc));
      view[0] == data[1] && Identity(view[0], 0) == 0 &&
      SelectedRows(data, {Identity(view[0], 0)}) == [data[0]] && data[0] != data[1]
  {
    UnnamedView();
    var data := UnnamedData();
    var ix := SelectedPositions(data, {0}, 2);
    assert 0 in ix && 1 !in ix;
    assert data[0].fields["v"] == 2 && data[1].fields["v"] == 1;
  }

  // ---------------------------------------------------------------------
  // The component instance

  /** One mounted table: its props of the latest render and its two pieces of state. */
  class DataTableInstance {
    var props: Props
    var sort: SortState
    var selectedIds: set<int>

    constructor(p: Props)
      ensures props == p && sort == Unsorted && selectedIds == {}
    {
      props := p;
      sort := Unsorted;
      selectedIds := {};
    }

    /** A re-render with new props keeps the sort and the selection. */
    method ReceiveProps(p: Props)
      modifies this
      ensures props == p && sort == old(sort) && selectedIds == old(selectedIds)
    {
      props := p;
    }

    function Body(): seq<BodyRow>
      reads this
    {
      BodyRows(props, sort, selectedIds)
    }

    /** `onSort(c)`: a click on the header of `c`. */
    method OnSort(c: Column)
      modifies this
      ensures sort == NextSort(old(sort), c)
      ensures props == old(props) && selectedIds == old(selectedIds)
    {
      sort := NextSort(sort, c);
    }

    /**
     * `toggleAll`: clears the selection when the header shows all checked,
     * otherwise selects every record's identity; `report` is what
     * `onRowSelect` receives (`None`: not called).
     */
    method ToggleAll() returns (report: Option<seq<Row>>)
      modifies this
      ensures props == old(props) && sort == old(sort)
      ensures !props.selectable ==> selectedIds == old(selectedIds) && report == None
      ensures props.selectable ==>
        selectedIds == (if AllChecked(props, old(selectedIds)) then {} else IdentitySet(props.data))
      ensures props.selectable ==>
        report == (if props.hasRowSelectHandler then Some(SelectedRows(props.data, selectedIds)) else None)
    {
      if !props.selectable {
        report := None;
        return;
      }
      var data := props.data;
      var next: set<int> := {};
      if !AllChecked(props, selectedIds) {
        var i := 0;
        while i < |data|
          invariant 0 <= i <= |data|
          invariant next == IdentitiesUpTo(data, i)
        {
          next := next + {Identity(data[i], i)};
          i := i + 1;
        }
      }
      selectedIds := next;
      report := if props.hasRowSelectHandler then Some(SelectedRows(data, next)) else None;
    }

    /**
     * `toggleRow(row, idx)`: flips the membership of `row.id ?? idx` and of
     * nothing else; `report` is what `onRowSelect` receives.
     */
    method ToggleRow(row: Row, idx: nat) returns (report: Option<seq<Row>>)
      modifies this
      ensures props == old(props) && sort == old(sort)
      ensures !props.selectable ==> selectedIds == old(selectedIds) && report == None
      ensures props.selectable ==> forall x ::
        x in selectedIds <==> (if x == Identity(row, idx) then x !in old(selectedIds) else x in old(selectedIds))
      ensures props.selectable ==>
        report == (if props.hasRowSelectHandler then Some(SelectedRows(props.data, selectedIds)) else None)
    {
      if !props.selectable {
        report := None;
        return;
      }
      var id := Identity(row, idx);
      var next := selectedIds;
      if id in next {
        next := next - {id};
      } else {
        next := next + {id};
      }
      selectedIds := next;
      report := if props.hasRowSelectHandler then Some(SelectedRows(props.data, next)) else None;
    }
  }

  // ---------------------------------------------------------------------
  // Interactions

  /**
   * A selectable table, possibly after one header click: clicking the
   * checkbox of row `k` ("Select row k+1") checks it, and clicking it again
   * unchecks it.
   */
  method ClickRowCheckbox(p: Props, c: Column, k: nat) returns (before: bool, afterOne: bool, afterTwo: bool)
    requires p.selectable && !p.loading && k < |p.data|
    ensures !before && afterOne && !afterTwo
  {
    var t := new DataTableInstance(p);
    t.OnSort(c);
    var rows := t.Body();
    before := rows[k].checkbox == Some(true);
    var view := SortedView(t.props.data, t.sort);
    var _ := t.ToggleRow(view[k], k);
    rows := t.Body();
    afterOne := rows[k].checkbox == Some(true);
    var _ := t.ToggleRow(view[k], k);
    rows := t.Body();
    afterTwo := rows[k].checkbox == Some(true);
  }

  /**
   * "Select all" on a fresh selectable table selects every identity and
   * reports every record; a second "select all" clears the selection when
   * identities are distinct, and selects the same identities again when
   * two records share one.
   */
  method SelectAllTwice(p: Props) returns (first: set<int>, firstReport: seq<Row>, second: set<int>)
    requires p.selectable && p.hasRowSelectHandler && |p.data| > 0
    ensures first == IdentitySet(p.data) && firstReport == p.data
    ensures DistinctIdentities(p.data, |p.data|) ==> second == {}
    ensures !DistinctIdentities(p.data, |p.data|) ==> second == first
  {
    var t := new DataTableInstance(p);
    var r := t.ToggleAll();
    first := t.selectedIds;
    SelectAllReportsAll(p.data);
    firstReport := r.value;
    AllCheckedAfterSelectAll(p);
    r := t.ToggleAll();
    second := t.selectedIds;
  }

  /**
   * Sorting a table of records without `id` by a column and clicking
   * "Select row 1" reports a record other than the one displayed in that row.
   */
  method ClickFirstSortedRow(c: Column) returns (shown: Row, report: Option<seq<Row>>)
    requires c.sortable && c.dataIndex == "v"
    ensures shown == UnnamedData()[1] && report == Some([UnnamedData()[0]])
  {
    var t := new DataTableInstance(Props(UnnamedData(), [c], false, true, true, None));
    t.OnSort(c);
    var view := SortedView(t.props.data, t.sort);
    OtherRecordReported();
    shown := view[0];
    report := t.ToggleRow(view[0], 0);
  }
}
