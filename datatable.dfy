/**
  The `DataTable` component: the full dataset, the visible list, the header sort markers
  and the rendered table body, updated in place by `setData`, `filter`, `search`,
  `sortBy`, `render` and `refresh`.  A table whose element was not found at construction
  (`mounted` false) has no header and no body: `render` does nothing, and `sortBy` and
  `getSelectedRows` throw on the missing element, which the methods report with `thrown`.
 */
module DataTableComponent {
  import opened Wrappers
  import opened JsValues
  import opened ArraySort
  import opened TableView
  import Seqs

  class DataTable {
    const columns: seq<Column>
    const options: Options
    /** Whether `init` found the table element, so that `setupTable` and `bindEvents` ran. */
    const mounted: bool
    /** The header row; empty when not mounted. */
    const headers: seq<Header>

    var data: seq<Row>
    var filteredData: seq<Row>
    /** The sort classes on each column header, by column position. */
    var markers: seq<Marks>
    /** The rows of the table body. */
    var body: seq<RowView>
    /** How many times `onRenderComplete` has been called. */
    var completions: nat

    predicate Valid()
      reads this
    {
      MarksValid(columns, markers)
      && headers == (if mounted then Headers(columns, options) else [])
      && (!mounted ==> body == [])
    }

    /** What `render` leaves behind, given the body and callback count before it. */
    predicate RenderedFrom(oldBody: seq<RowView>, oldCompletions: nat)
      reads this
    {
      if mounted then
        body == View(columns, options, filteredData)
        && completions == oldCompletions + (if filteredData != [] && options.onRenderComplete then 1 else 0)
      else
        body == oldBody && completions == oldCompletions
    }

    /** `new DataTable(tableId, columns, options)`; `mounted` is whether the element with `tableId` exists. */
    constructor (columns: seq<Column>, options: Options, mounted: bool)
      ensures this.columns == columns && this.options == options && this.mounted == mounted
      ensures data == [] && filteredData == [] && body == [] && completions == 0
      ensures markers == seq(|columns|, i => NoMarks)
      ensures Valid()
    {
      this.columns := columns;
      this.options := options;
      this.mounted := mounted;
      this.headers := if mounted then Headers(columns, options) else [];
      data := [];
      filteredData := [];
      markers := seq(|columns|, i => NoMarks);
      body := [];
      completions := 0;
    }

    /** The cells of one row, column by column. */
    method RenderCells(item: Row, index: nat) returns (cells: seq<Cell>)
      ensures cells == CellsOf(columns, item, index)
    {
      cells := [];
      for j := 0 to |columns|
        invariant |cells| == j
        invariant forall i :: 0 <= i < j ==> cells[i] == CellOf(columns[i], item, index)
      {
        var c := columns[j];
        var cell;
        match c.render {
          case Some(f) =>
            cell := Markup(f(item, index));
          case None =>
            var v := Get(item, c.field);
            cell := Text(if Truthy(v) then ToStr(v) else "");
        }
        cells := cells + [cell];
      }
    }

    /** The actions cell of one row: each configured action in order, skipping edit actions on special rows. */
    method RenderActionCell(item: Row) returns (cell: ActionCell)
      ensures cell == ActionCellOf(options, item)
    {
      if !ShowsActions(options) {
        return NoActionColumn;
      }
      var isInit := Get(item, "action") == Str(InitAction);
      if options.actions.Some? && !isInit {
        var actions := options.actions.value;
        var shown: seq<ActionDesc> := [];
        for j := 0 to |actions|
          invariant shown == ShownActions(actions[..j], item)
        {
          var a := actions[j];
          var special := Get(item, "action") == Str(RefundAction) || Get(item, "action") == Str(ReductionAction);
          assert actions[..j + 1] == actions[..j] + [a];
          Seqs.FilterAppend(actions[..j], [a], (x: ActionDesc) => ShowsAction(item, x));
          if !(special && IsEditAction(a)) {
            shown := shown + [a];
          }
        }
        assert actions[..|actions|] == actions;
        cell := Controls(shown);
      } else if isInit {
        cell := Dash;
      } else {
        cell := Blank;
      }
    }

    /** `render()`: rebuilds the body from the visible list. */
    method Render()
      requires Valid()
      modifies this
      ensures Valid() && RenderedFrom(old(body), old(completions))
      ensures data == old(data) && filteredData == old(filteredData) && markers == old(markers)
    {
      if !mounted {
        return;
      }
      body := [];
      if |filteredData| == 0 {
        body := body + [Placeholder(ColSpan(columns, options), EmptyText)];
        return;
      }
      for i := 0 to |filteredData|
        invariant data == old(data) && filteredData == old(filteredData) && markers == old(markers)
        invariant completions == old(completions)
        invariant |body| == i
        invariant forall k :: 0 <= k < i ==> body[k] == RowOf(columns, options, filteredData[k], k)
      {
        var item := filteredData[i];
        var cells := RenderCells(item, i);
        var actionCell := RenderActionCell(item);
        var highlighted := Get(item, "action") == Str(RefundAction) || Get(item, "action") == Str(ReductionAction);
        body := body + [DataRow(ToStr(Get(item, "id")), highlighted, cells, actionCell, options.onRowClick)];
      }
      if options.onRenderComplete {
        completions := completions + 1;
      }
    }

    /** `setData(rows)`: the dataset becomes `rows`, the visible list a copy of it. */
    method SetData(rows: seq<Row>)
      requires Valid()
      modifies this
      ensures Valid() && RenderedFrom(old(body), old(completions))
      ensures data == rows && filteredData == rows && markers == old(markers)
    {
      data := rows;
      filteredData := rows;
      Render();
    }

    /** `filter(filterFn)`: recomputed from the full dataset, whatever was visible before. */
    method Filter(filterFn: Option<Row -> bool>)
      requires Valid()
      modifies this
      ensures Valid() && RenderedFrom(old(body), old(completions))
      ensures data == old(data) && markers == old(markers)
      ensures filteredData == FilterRows(data, filterFn)
    {
      match filterFn {
        case Some(p) => filteredData := Seqs.Filter(data, p);
        case None => filteredData := data;
      }
      Render();
    }

    /** `search(keyword)`: recomputed from the full dataset, whatever was visible before. */
    method Search(keyword: string)
      requires Valid()
      modifies this
      ensures Valid() && RenderedFrom(old(body), old(completions))
      ensures data == old(data) && markers == old(markers)
      ensures filteredData == SearchRows(data, columns, keyword)
    {
      if JsStrings.Trim(keyword) == "" {
        filteredData := data;
        Render();
        return;
      }
      filteredData := Seqs.Filter(data, (item: Row) => RowMatches(columns, item, keyword));
      Render();
    }

    /** The state after a `sortBy(field)` on a mounted table, given the state before it. */
    predicate SortedFrom(field: string, oldMarkers: seq<Marks>, oldFiltered: seq<Row>,
                         oldBody: seq<RowView>, oldCompletions: nat)
      requires |oldMarkers| == |columns|
      reads this
    {
      match SortTarget(columns, field)
      case None =>
        markers == oldMarkers && filteredData == oldFiltered && body == oldBody && completions == oldCompletions
      case Some(k) =>
        var dir := NextDirection(oldMarkers[k]);
        markers == MarksAfterSort(columns, oldMarkers, k, dir)
        && filteredData == SortRows(oldFiltered, field, dir)
        && RenderedFrom(oldBody, oldCompletions)
    }

    /**
      `sortBy(field)`: toggles the marker of the first header for `field`, clears the other
      sortable headers, sorts the visible list on `field` and renders.
     */
    method SortBy(field: string) returns (thrown: bool)
      requires Valid()
      modifies this
      ensures Valid() && data == old(data)
      ensures thrown <==> !mounted
      ensures thrown ==> markers == old(markers) && filteredData == old(filteredData) && body == old(body)
                         && completions == old(completions)
      ensures !thrown ==> SortedFrom(field, old(markers), old(filteredData), old(body), old(completions))
    {
      if !mounted {
        return true;
      }
      thrown := false;
      var target := SortTarget(columns, field);
      if target.None? {
        return;
      }
      var k := target.value;
      var dir := NextDirection(markers[k]);
      ghost var before := markers;
      ClearSortMarks();
      markers := markers[k := AddMark(markers[k], dir)];
      MarksAfterSortProperties(columns, before, k, dir);
      filteredData := SortRows(filteredData, field, dir);
      Render();
    }

    /** The first loop of `sortBy`: removes both sort classes from every sortable header. */
    method ClearSortMarks()
      requires |markers| == |columns|
      modifies this
      ensures markers == ClearedMarks(columns, old(markers))
      ensures data == old(data) && filteredData == old(filteredData)
      ensures body == old(body) && completions == old(completions)
    {
      for i := 0 to |columns|
        invariant |markers| == |columns|
        invariant forall j :: 0 <= j < i ==> markers[j] == if IsSortable(columns[j]) then NoMarks else old(markers)[j]
        invariant forall j :: i <= j < |markers| ==> markers[j] == old(markers)[j]
        invariant data == old(data) && filteredData == old(filteredData)
        invariant body == old(body) && completions == old(completions)
      {
        if IsSortable(columns[i]) {
          markers := markers[i := NoMarks];
        }
      }
    }

    /**
      A click on the header of column `k`: `bindEvents` gave only sortable headers a
      handler, and only when the `sortable` option is on.  The handler sorts on the
      column's field, which acts on the first header with that field.
     */
    method HeaderClick(k: nat)
      requires Valid() && k < |columns|
      modifies this
      ensures Valid() && data == old(data)
      ensures !(mounted && BindsSortClicks(options) && IsSortable(columns[k])) ==>
                markers == old(markers) && filteredData == old(filteredData) && body == old(body)
                && completions == old(completions)
      ensures mounted && BindsSortClicks(options) && IsSortable(columns[k]) ==>
                SortedFrom(columns[k].field, old(markers), old(filteredData), old(body), old(completions))
    {
      if mounted && BindsSortClicks(options) && IsSortable(columns[k]) {
        var _ := SortBy(columns[k].field);
      }
    }

    /** `refresh()`. */
    method Refresh()
      requires Valid()
      modifies this
      ensures Valid() && RenderedFrom(old(body), old(completions))
      ensures data == old(data) && filteredData == old(filteredData) && markers == old(markers)
    {
      Render();
    }

    /**
      `getSelectedRows()`: for each body row at a position in `selected` (the rows that
      carry the `selected` class), in body order, the first item of the dataset whose `id`
      is strictly equal to the row's `dataset.id`, when there is one.
     */
    method GetSelectedRows(selected: set<nat>) returns (thrown: bool, rows: seq<Row>)
      ensures thrown <==> !mounted
      ensures rows == if thrown then [] else SelectedItems(body, selected, data)
    {
      if !mounted {
        return true, [];
      }
      thrown := false;
      rows := [];
      for i := 0 to |body|
        invariant rows == SelectedItems(body[..i], selected, data)
      {
        assert body[..i + 1][..i] == body[..i];
        if i in selected {
          var id := if body[i].DataRow? then Str(body[i].id) else Undefined;
          var item := FindById(data, id);
          if item.Some? {
            rows := rows + [item.value];
          }
        }
      }
      assert body[..|body|] == body;
    }
  }

  /**
    Sorting twice on a sortable column that does not carry `sort-asc` gives the ascending
    order and then its exact reverse, when the column's values are of one kind and pairwise
    distinct.
   */
  method SortTwiceReverses(t: DataTable, field: string, k: nat)
    requires t.Valid() && t.mounted
    requires SortTarget(t.columns, field) == Some(k) && IsSortable(t.columns[k]) && !t.markers[k].asc
    requires Comparable(t.filteredData, field) && DistinctKeys(t.filteredData, field)
    modifies t
    ensures t.Valid()
    ensures t.markers[k] == Marks(false, true)
    ensures t.filteredData == Seqs.Reverse(SortRows(old(t.filteredData), field, Asc))
  {
    var _ := t.SortBy(field);
    var _ := t.SortBy(field);
    AscThenDescReverses(old(t.filteredData), field);
  }

  /** A search after a filter shows the same rows as the search alone: both start from the full dataset. */
  method FilterThenSearch(t: DataTable, p: Row -> bool, keyword: string)
    requires t.Valid()
    modifies t
    ensures t.Valid() && t.data == old(t.data)
    ensures t.filteredData == SearchRows(old(t.data), t.columns, keyword)
  {
    t.Filter(Some(p));
    t.Search(keyword);
  }
}
